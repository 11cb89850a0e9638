/** The stamp that names a capture, and the build date: the two users of the calendar. */
module Capture {
  import opened Machine
  import opened Calendar
  import opened Digits

  function Era64(z: i64): (era: i64)
    requires z >= -0x8000_0000_0000_0000 + 719468
    ensures era as int == EraOf(z as int)
  {
    var shifted := if z >= 0 then z else z - 146096;
    if shifted >= 0 then shifted / 146097 else -((-shifted) / 146097)
  }

  function YearOfEra64(doe: i64): (yoe: i64)
    requires 0 <= doe < 146097
    ensures yoe as int == YearOfEra(doe as int) && 0 <= yoe <= 399
    ensures 0 <= DayOfYear(doe as int, yoe as int) <= 365
  {
    YearOfEraBounds(doe as int);
    (doe - doe / 1460 + doe / 36524 - doe / 146096) / 365
  }

  function DateInShiftedYear64(year: i64, doy: i64): (r: (i64, u32, u32))
    requires 0 <= doy <= 365 && year < 0x7FFF_FFFF_FFFF_FFFF
    ensures Date(r.0 as int, r.1 as int, r.2 as int) == DateInShiftedYear(year as int, doy as int)
  {
    var mp := (5 * doy + 2) / 153;
    var day := (doy - (153 * mp + 2) / 5 + 1) as u32;
    var month := (if mp < 10 then mp + 3 else mp - 9) as u32;
    (if month <= 2 then year + 1 else year, month, day)
  }

  function DayOfEra64(z: i64, era: i64): (doe: i64)
    requires z >= -0x8000_0000_0000_0000 + 719468 && era as int == EraOf(z as int)
    ensures doe as int == z as int - era as int * 146097 && 0 <= doe < 146097
    ensures -70000000000000 <= era <= 70000000000000
  {
    EraIsFloor(z as int);
    z - era * 146097
  }

  function DayOfYear64(doe: i64, yoe: i64): (doy: i64)
    requires 0 <= doe < 146097 && 0 <= yoe <= 399
    ensures doy as int == DayOfYear(doe as int, yoe as int)
  {
    doe - (365 * yoe + yoe / 4 - yoe / 100)
  }

  function DateInEra64(era: i64, doe: i64): (r: (i64, u32, u32))
    requires 0 <= doe < 146097 && -70000000000000 <= era <= 70000000000000
    ensures Date(r.0 as int, r.1 as int, r.2 as int) == DateInEra(era as int, doe as int)
  {
    hide YearOfEra, DayOfYear, DateInShiftedYear;
    var yoe := YearOfEra64(doe);
    DateInShiftedYear64(yoe + era * 400, DayOfYear64(doe, yoe))
  }

  /** `civil_from_days` in the widths it runs in. No step overflows and no cast loses a bit, as long
      as the first addition does not overflow; the result is the calendar's conversion. */
  function CivilFromDays64(days: i64): (r: (i64, u32, u32))
    requires days <= 0x7FFF_FFFF_FFFF_FFFF - 719468
    ensures Date(r.0 as int, r.1 as int, r.2 as int) == CivilFromDays(days as int)
  {
    hide EraOf, DateInEra;
    var z := days + 719468;
    var era := Era64(z);
    DateInEra64(era, DayOfEra64(z, era))
  }

  // ----- Stamps -----

  const DAY_MS := 86400000
  const NANOS_PER_MS := 1000000

  /** The first millisecond of the year 10000. */
  const YEAR_10000_MS := 253402300800000

  /** An instant is its nanoseconds since the epoch, negative before 1970; the seconds fit 64 bits. */
  type Instant = n: int | n < 0x1_0000_0000_0000_0000 * 1000000000

  /** Whole milliseconds since the epoch; a clock set before it reads as the epoch. */
  function Millis(now: Instant): nat {
    if now < 0 then 0 else now / NANOS_PER_MS
  }

  lemma DaySinceEpoch(days: int)
    requires days >= 0
    ensures IsDate(CivilFromDays(days)) && CivilFromDays(days).year >= 1970
  {
    CivilIsThatDay(days);
    CivilAtTheEpoch();
    if days > 0 {
      CivilOrders(0, days);
    }
  }

  function DateText(d: Date): string
    requires d.year >= 0 && d.month >= 0 && d.day >= 0
  {
    ZeroPadded(d.year, 4) + ZeroPadded(d.month, 2) + ZeroPadded(d.day, 2)
  }

  function TimeText(secsOfDay: nat, millis: nat): string {
    ZeroPadded(secsOfDay / 3600, 2) + ZeroPadded(secsOfDay % 3600 / 60, 2) + ZeroPadded(secsOfDay % 60, 2)
    + "-" + ZeroPadded(millis, 3)
  }

  /** `stamp`: the UTC `YYYYMMDD-HHMMSS-mmm` of an instant. */
  function Stamp(now: Instant): string {
    var since := if now < 0 then 0 else now;
    var secs := since / 1000000000;
    var millis := since % 1000000000 / NANOS_PER_MS;
    DaySinceEpoch(secs / 86400);
    DateText(CivilFromDays(secs / 86400)) + "-" + TimeText(secs % 86400, millis)
  }

  /** The stamp of a millisecond, as a day and a time of it. */
  function StampText(ms: nat): string {
    DaySinceEpoch(ms / DAY_MS);
    DateText(CivilFromDays(ms / DAY_MS)) + "-" + TimeText(ms % DAY_MS / 1000, ms % DAY_MS % 1000)
  }

  /** A stamp is a function of the millisecond alone. */
  lemma StampOfMillis(now: Instant)
    ensures Stamp(now) == StampText(Millis(now))
  {
    var since := if now < 0 then 0 else now;
    var secs, ms := since / 1000000000, since / NANOS_PER_MS;
    assert secs == ms / 1000;
    assert since % 1000000000 / NANOS_PER_MS == ms % 1000;
    assert secs / 86400 == ms / DAY_MS;
    assert secs % 86400 == ms % DAY_MS / 1000;
    assert ms % 1000 == ms % DAY_MS % 1000;
  }

  lemma DateTextOrders(a: Date, b: Date)
    requires IsDate(a) && IsDate(b) && 0 <= a.year < 10000 && 0 <= b.year < 10000
    ensures |DateText(a)| == |DateText(b)| == 8
    ensures LexLess(DateText(a), DateText(b)) <==> Before(a, b)
    ensures DateText(a) == DateText(b) <==> a == b
  {
    var y, z := ZeroPadded(a.year, 4), ZeroPadded(b.year, 4);
    var m, n := ZeroPadded(a.month, 2), ZeroPadded(b.month, 2);
    var d, e := ZeroPadded(a.day, 2), ZeroPadded(b.day, 2);
    Powers();
    ZeroPaddedOrder(a.year, b.year, 4);
    ZeroPaddedOrder(a.month, b.month, 2);
    ZeroPaddedOrder(a.day, b.day, 2);
    LexConcat(y + m, d, z + n, e);
    LexConcat(y, m, z, n);
    LexIrreflexive(y);
    LexIrreflexive(m);
  }

  lemma Powers()
    ensures Pow(10, 2) == 100 && Pow(10, 3) == 1000 && Pow(10, 4) == 10000
  {
    assert Pow(10, 1) == 10;
    assert Pow(10, 2) == 10 * Pow(10, 1);
    assert Pow(10, 3) == 10 * Pow(10, 2);
    assert Pow(10, 4) == 10 * Pow(10, 3);
  }

  lemma FieldsOrder(h: string, m: string, u: string, x: string, i: string, n: string, v: string, y: string)
    requires |h| == |i| && |m| == |n| && |u| == |v|
    ensures LexLess(h + m + u + "-" + x, i + n + v + "-" + y) <==>
            || LexLess(h, i)
            || (h == i && LexLess(m, n))
            || (h == i && m == n && LexLess(u, v))
            || (h == i && m == n && u == v && LexLess(x, y))
  {
    LexConcat(h + m + u + "-", x, i + n + v + "-", y);
    LexConcat(h + m + u, "-", i + n + v, "-");
    LexConcat(h + m, u, i + n, v);
    LexConcat(h, m, i, n);
    LexIrreflexive("-");
  }

  lemma ClockTextsOrder(h: nat, m: nat, u: nat, x: nat, i: nat, n: nat, v: nat, y: nat)
    requires h < 100 && m < 100 && u < 100 && x < 1000 && i < 100 && n < 100 && v < 100 && y < 1000
    ensures LexLess(ZeroPadded(h, 2) + ZeroPadded(m, 2) + ZeroPadded(u, 2) + "-" + ZeroPadded(x, 3),
                    ZeroPadded(i, 2) + ZeroPadded(n, 2) + ZeroPadded(v, 2) + "-" + ZeroPadded(y, 3)) <==>
            h < i || (h == i && m < n) || (h == i && m == n && u < v) || (h == i && m == n && u == v && x < y)
  {
    Powers();
    hide Pow, ZeroPadded, LexLess;
    ZeroPaddedOrder(h, i, 2);
    ZeroPaddedOrder(m, n, 2);
    ZeroPaddedOrder(u, v, 2);
    ZeroPaddedOrder(x, y, 3);
    FieldsOrder(ZeroPadded(h, 2), ZeroPadded(m, 2), ZeroPadded(u, 2), ZeroPadded(x, 3),
                ZeroPadded(i, 2), ZeroPadded(n, 2), ZeroPadded(v, 2), ZeroPadded(y, 3));
  }

  /** The text of a time of day sorts as the millisecond of the day does. */
  lemma TimeTextOrders(a: nat, b: nat)
    requires a < DAY_MS && b < DAY_MS
    ensures LexLess(TimeText(a / 1000, a % 1000), TimeText(b / 1000, b % 1000)) <==> a < b
  {
    hide ZeroPadded, LexLess;
    var s, t := a / 1000, b / 1000;
    ClockOrder(a, b);
    ClockTextsOrder(s / 3600, s % 3600 / 60, s % 60, a % 1000, t / 3600, t % 3600 / 60, t % 60, b % 1000);
  }

  /** Hours, minutes, seconds and milliseconds, compared in that order, compare the whole. */
  lemma ClockOrder(a: nat, b: nat)
    ensures var (s, t) := (a / 1000, b / 1000);
            a < b <==>
            || s / 3600 < t / 3600
            || (s / 3600 == t / 3600 && s % 3600 / 60 < t % 3600 / 60)
            || (s / 3600 == t / 3600 && s % 3600 / 60 == t % 3600 / 60 && s % 60 < t % 60)
            || (s / 3600 == t / 3600 && s % 3600 / 60 == t % 3600 / 60 && s % 60 == t % 60 && a % 1000 < b % 1000)
  {
    var s, t := a / 1000, b / 1000;
    assert s == 3600 * (s / 3600) + 60 * (s % 3600 / 60) + s % 60 by { Sexagesimal(s); }
    assert t == 3600 * (t / 3600) + 60 * (t % 3600 / 60) + t % 60 by { Sexagesimal(t); }
  }

  lemma Sexagesimal(s: nat)
    ensures s == 3600 * (s / 3600) + 60 * (s % 3600 / 60) + s % 60
  {
    assert s % 3600 % 60 == s % 60 by {
      assert s == 60 * (60 * (s / 3600) + s % 3600 / 60) + s % 3600 % 60;
    }
  }

  lemma YearBelow10000(days: nat)
    ensures CivilFromDays(days).year < 10000 <==> days < YEAR_10000_MS / DAY_MS
  {
    var d := Date(10000, 1, 1);
    YearsClosedForm(10000);
    assert DayNumber(d) == YEAR_10000_MS / DAY_MS;
    CivilIsThatDay(days);
    var e := CivilFromDays(days);
    if e.year < 10000 {
      DayNumberOrders(e, d);
    } else if Before(d, e) {
      DayNumberOrders(d, e);
    }
  }

  lemma StampTextsSort(m: nat, n: nat)
    requires m < YEAR_10000_MS && n < YEAR_10000_MS
    ensures LexLess(StampText(m), StampText(n)) <==> m < n
  {
    DaySinceEpoch(m / DAY_MS);
    DaySinceEpoch(n / DAY_MS);
    var c, d := CivilFromDays(m / DAY_MS), CivilFromDays(n / DAY_MS);
    YearBelow10000(m / DAY_MS);
    YearBelow10000(n / DAY_MS);
    DateTextOrders(c, d);
    DaysOrder(m / DAY_MS, n / DAY_MS);
    var x, y := m % DAY_MS, n % DAY_MS;
    TimeTextOrders(x, y);
    LexConcat(DateText(c) + "-", TimeText(x / 1000, x % 1000), DateText(d) + "-", TimeText(y / 1000, y % 1000));
    LexConcat(DateText(c), "-", DateText(d), "-");
    LexIrreflexive("-");
  }

  /** Up to the year 9999, stamps sort exactly as the milliseconds they name. */
  lemma StampsSortChronologically(a: Instant, b: Instant)
    requires Millis(a) < YEAR_10000_MS && Millis(b) < YEAR_10000_MS
    ensures LexLess(Stamp(a), Stamp(b)) <==> Millis(a) < Millis(b)
    ensures Stamp(a) == Stamp(b) <==> Millis(a) == Millis(b)
  {
    StampOfMillis(a);
    StampOfMillis(b);
    StampTextsSort(Millis(a), Millis(b));
    StampTextsSort(Millis(b), Millis(a));
    LexIrreflexive(Stamp(a));
  }

  lemma DaysOrder(m: nat, n: nat)
    ensures Before(CivilFromDays(m), CivilFromDays(n)) <==> m < n
    ensures CivilFromDays(m) == CivilFromDays(n) <==> m == n
  {
    if m < n {
      CivilOrders(m, n);
    } else if n < m {
      CivilOrders(n, m);
    }
  }

  /** Below `limit` milliseconds, string order is time order. */
  ghost predicate SortsBelow(limit: nat) {
    forall a: nat, b: nat :: a < b < limit ==> LexLess(StampText(a), StampText(b))
  }

  /** The order the module promises holds up to the end of the year 9999 and no further: the first
      stamp of the year 10000 sorts before the last one of 9999. */
  lemma StampsSortUpToYear9999(limit: nat)
    ensures SortsBelow(limit) <==> limit <= YEAR_10000_MS
  {
    forall a: nat, b: nat | a < b < YEAR_10000_MS
      ensures LexLess(StampText(a), StampText(b))
    {
      StampTextsSort(a, b);
    }
    FirstStampOfYear10000();
    var last := YEAR_10000_MS - 1;
    assert last + 1 < limit ==> !(SortsBelow(limit));
  }

  lemma ConversionAround10000()
    ensures CivilFromDays((YEAR_10000_MS - 1) / DAY_MS) == Date(9999, 12, 31)
    ensures CivilFromDays(YEAR_10000_MS / DAY_MS) == Date(10000, 1, 1)
  {
    hide CivilFromDays;
    YearsClosedForm(9999);
    YearsClosedForm(10000);
    MonthStarts(9999, 12);
    ConversionOf(Date(9999, 12, 31), (YEAR_10000_MS - 1) / DAY_MS);
    ConversionOf(Date(10000, 1, 1), YEAR_10000_MS / DAY_MS);
  }

  lemma StampTextStart(ms: nat)
    ensures CivilFromDays(ms / DAY_MS).year >= 0
    ensures ZeroPadded(CivilFromDays(ms / DAY_MS).year, 4) <= StampText(ms)
  {
    DaySinceEpoch(ms / DAY_MS);
  }

  lemma FirstStampOfYear10000()
    ensures !LexLess(StampText(YEAR_10000_MS - 1), StampText(YEAR_10000_MS))
  {
    ConversionAround10000();
    StampTextStart(YEAR_10000_MS - 1);
    StampTextStart(YEAR_10000_MS);
    NineThousand();
    TenThousand();
  }

  lemma NineThousand()
    ensures |ZeroPadded(9999, 4)| == 4 && ZeroPadded(9999, 4)[0] == '9'
  {
    assert Render(9, 10) == "9";
    assert Render(99, 10) == Render(9, 10) + "9";
    assert Render(999, 10) == Render(99, 10) + "9";
    assert Render(9999, 10) == Render(999, 10) + "9";
  }

  lemma TenThousand()
    ensures |ZeroPadded(10000, 4)| == 5 && ZeroPadded(10000, 4)[0] == '1'
  {
    assert Render(1, 10) == "1";
    assert Render(10, 10) == Render(1, 10) + "0";
    assert Render(100, 10) == Render(10, 10) + "0";
    assert Render(1000, 10) == Render(100, 10) + "0";
    assert Render(10000, 10) == Render(1000, 10) + "0";
  }

  // ----- The build date, the second copy of the conversion -----

  /** The build script's conversion: it adds the leap-month carry to the year in one expression. */
  function BuildDate(days: nat): Date {
    var z := days + 719468;
    var era := TruncDiv(if z >= 0 then z else z - 146096, 146097);
    var doe := z - era * 146097;
    BuildDateInEra(era, doe)
  }

  function BuildDateInEra(era: int, doe: int): Date {
    var yoe := TruncDiv(doe - TruncDiv(doe, 1460) + TruncDiv(doe, 36524) - TruncDiv(doe, 146096), 365);
    BuildDateInYear(era, yoe, doe - (365 * yoe + TruncDiv(yoe, 4) - TruncDiv(yoe, 100)))
  }

  function BuildDateInYear(era: int, yoe: int, doy: int): Date {
    var mp := TruncDiv(5 * doy + 2, 153);
    var day := doy - TruncDiv(153 * mp + 2, 5) + 1;
    var month := if mp < 10 then mp + 3 else mp - 9;
    Date(yoe + era * 400 + (if month <= 2 then 1 else 0), month, day)
  }

  lemma BuildDateIsTheCaptureDate(days: nat)
    ensures BuildDate(days) == CivilFromDays(days) && IsDate(BuildDate(days)) && BuildDate(days).year >= 1970
  {
    BuildDateFormula(days);
    DaySinceEpoch(days);
  }

  lemma BuildDateInEraFormula(era: int, doe: int)
    ensures BuildDateInEra(era, doe) == DateInEra(era, doe)
  {
    var yoe := YearOfEra(doe);
    BuildDateInYearFormula(era, yoe, DayOfYear(doe, yoe));
    hide BuildDateInYear, DateInShiftedYear;
  }

  lemma BuildDateInYearFormula(era: int, yoe: int, doy: int)
    ensures BuildDateInYear(era, yoe, doy) == DateInShiftedYear(yoe + era * 400, doy)
  {
  }

  lemma BuildDateFormula(days: nat)
    ensures BuildDate(days) == CivilFromDays(days)
  {
    hide BuildDateInEra, DateInEra;
    BuildDateInEraFormula(EraOf(days + 719468), days + 719468 - EraOf(days + 719468) * 146097);
  }

  /** `format_utc` of the build script: `YYYY-MM-DD HH:MM:SS UTC` of seconds since the epoch. */
  function FormatUtc(secs: nat): string {
    BuildDateIsTheCaptureDate(secs / 86400);
    UtcText(BuildDate(secs / 86400), secs % 86400)
  }

  function UtcText(d: Date, rem: nat): string
    requires d.year >= 0 && d.month >= 0 && d.day >= 0
  {
    Dashed(ZeroPadded(d.year, 4), ZeroPadded(d.month, 2), ZeroPadded(d.day, 2),
           ZeroPadded(rem / 3600, 2), ZeroPadded(rem % 3600 / 60, 2), ZeroPadded(rem % 60, 2))
  }

  lemma StampSlices(y: string, m: string, d: string, h: string, n: string, s: string, x: string)
    requires |m| == |d| == |h| == |n| == |s| == 2
    ensures var (t, k) := (y + m + d + "-" + (h + n + s + "-" + x), |y|);
            && |t| == k + 12 + |x| && t[..k] == y && t[k..k + 2] == m && t[k + 2..k + 4] == d
            && t[k + 5..k + 7] == h && t[k + 7..k + 9] == n && t[k + 9..k + 11] == s
  {
  }

  /** The build date rearranged out of a stamp. */
  function Rearranged(t: string): string
    requires |t| >= 15
  {
    var k := |t| - 15;
    Dashed(t[..k], t[k..k + 2], t[k + 2..k + 4], t[k + 5..k + 7], t[k + 7..k + 9], t[k + 9..k + 11])
  }

  function Dashed(y: string, m: string, d: string, h: string, n: string, s: string): string {
    y + "-" + m + "-" + d + " " + h + ":" + n + ":" + s + " UTC"
  }

  lemma FieldWidths(s: nat, ms: nat, d: Date)
    requires IsDate(d) && s < 86400 && ms < 1000
    ensures |ZeroPadded(d.month, 2)| == |ZeroPadded(d.day, 2)| == 2
    ensures |ZeroPadded(s / 3600, 2)| == |ZeroPadded(s % 3600 / 60, 2)| == |ZeroPadded(s % 60, 2)| == 2
    ensures |ZeroPadded(ms, 3)| == 3
  {
    Powers();
    ZeroPaddedOrder(d.month, d.day, 2);
    ZeroPaddedOrder(s / 3600, s % 3600 / 60, 2);
    ZeroPaddedOrder(s % 60, s % 60, 2);
    ZeroPaddedOrder(ms, ms, 3);
  }

  lemma RearrangedFields(y: string, m: string, d: string, h: string, n: string, s: string, x: string)
    requires |m| == |d| == |h| == |n| == |s| == 2 && |x| == 3
    ensures Rearranged(y + m + d + "-" + (h + n + s + "-" + x)) == Dashed(y, m, d, h, n, s)
  {
    StampSlices(y, m, d, h, n, s, x);
  }

  lemma TextsAgree(d: Date, s: nat, ms: nat)
    requires IsDate(d) && d.year >= 0 && s < 86400 && ms < 1000
    ensures |DateText(d) + "-" + TimeText(s, ms)| >= 15
    ensures Rearranged(DateText(d) + "-" + TimeText(s, ms)) == UtcText(d, s)
  {
    FieldWidths(s, ms, d);
    RearrangedFields(ZeroPadded(d.year, 4), ZeroPadded(d.month, 2), ZeroPadded(d.day, 2),
                     ZeroPadded(s / 3600, 2), ZeroPadded(s % 3600 / 60, 2), ZeroPadded(s % 60, 2), ZeroPadded(ms, 3));
  }

  /** The two copies of the calendar agree on every instant from 1970 on: the build date of a second is
      the stamp of any millisecond of it with its punctuation changed and its milliseconds dropped. */
  lemma StampAndBuildDateAgree(now: Instant)
    requires now >= 0
    ensures |Stamp(now)| >= 15 && FormatUtc(now / 1000000000) == Rearranged(Stamp(now))
  {
    var secs := now / 1000000000;
    BuildDateIsTheCaptureDate(secs / 86400);
    TextsAgree(CivilFromDays(secs / 86400), secs % 86400, now % 1000000000 / NANOS_PER_MS);
  }

  /** A stamp spells out the UTC date and time of its millisecond: four digits for the year, two for each of month, day,
      hour, minute and second, and three for the millisecond. Before the epoch it is the epoch's. */
  lemma StampSpelled(now: Instant) returns (y: string, m: string, d: string, h: string, n: string, s: string, x: string)
    ensures now < 0 ==> Stamp(now) == Stamp(0)
    ensures var (ms, date) := (Millis(now), CivilFromDays(Millis(now) / 86400000));
      && date.year >= 0 && date.month >= 0 && date.day >= 0
      && IsNumber(y, date.year, 4) && IsNumber(m, date.month, 2) && IsNumber(d, date.day, 2)
      && IsNumber(h, ms / 3600000 % 24, 2) && IsNumber(n, ms / 60000 % 60, 2)
      && IsNumber(s, ms / 1000 % 60, 2) && IsNumber(x, ms % 1000, 3)
    ensures Stamp(now) == y + m + d + "-" + (h + n + s + "-" + x)
  {
    StampOfMillis(now);
    var ms := Millis(now);
    DaySinceEpoch(ms / 86400000);
    var date := CivilFromDays(ms / 86400000);
    ClockOfMillis(ms);
    hide ZeroPadded, IsNumber, CivilFromDays;
    y, m, d := ZeroPadded(date.year, 4), ZeroPadded(date.month, 2), ZeroPadded(date.day, 2);
    h, n := ZeroPadded(ms / 3600000 % 24, 2), ZeroPadded(ms / 60000 % 60, 2);
    s, x := ZeroPadded(ms / 1000 % 60, 2), ZeroPadded(ms % 1000, 3);
    ZeroPaddedIsNumber(date.year, 4);
    ZeroPaddedIsNumber(date.month, 2);
    ZeroPaddedIsNumber(date.day, 2);
    ZeroPaddedIsNumber(ms / 3600000 % 24, 2);
    ZeroPaddedIsNumber(ms / 60000 % 60, 2);
    ZeroPaddedIsNumber(ms / 1000 % 60, 2);
    ZeroPaddedIsNumber(ms % 1000, 3);
  }

  lemma ClockOfMillis(ms: nat)
    ensures var t := ms % DAY_MS;
      && t / 1000 / 3600 == ms / 3600000 % 24 && t / 1000 % 3600 / 60 == ms / 60000 % 60
      && t / 1000 % 60 == ms / 1000 % 60 && t % 1000 == ms % 1000
  {
    var q, t, secs := ms / DAY_MS, ms % DAY_MS, ms / 1000;
    assert ms == 1000 * (86400 * q + t / 1000) + t % 1000;
    Divided(ms, 1000, 86400 * q + t / 1000, t % 1000);
    Divided(86400 * q + t / 1000, 86400, q, t / 1000);
    ClockOfSeconds(secs);
    HoursAndMinutes(ms);
  }

  lemma HoursAndMinutes(ms: nat)
    ensures ms / 3600000 == ms / 1000 / 3600 && ms / 60000 == ms / 1000 / 60
  {
    var secs := ms / 1000;
    assert ms == 3600000 * (secs / 3600) + (1000 * (secs % 3600) + ms % 1000);
    Divided(ms, 3600000, secs / 3600, 1000 * (secs % 3600) + ms % 1000);
    assert ms == 60000 * (secs / 60) + (1000 * (secs % 60) + ms % 1000);
    Divided(ms, 60000, secs / 60, 1000 * (secs % 60) + ms % 1000);
  }

  lemma ClockOfSeconds(secs: nat)
    ensures secs % 86400 / 3600 == secs / 3600 % 24
    ensures secs % 86400 % 3600 / 60 == secs / 60 % 60
    ensures secs % 86400 % 60 == secs % 60
  {
    var q, t := secs / 86400, secs % 86400;
    var h, r := t / 3600, t % 3600;
    assert secs == 3600 * (24 * q + h) + r;
    Divided(secs, 3600, 24 * q + h, r);
    Divided(24 * q + h, 24, q, h);
    var m, s := r / 60, r % 60;
    assert secs == 60 * (60 * (24 * q + h) + m) + s;
    Divided(secs, 60, 60 * (24 * q + h) + m, s);
    Divided(60 * (24 * q + h) + m, 60, 24 * q + h, m);
    assert t == 60 * (60 * h + m) + s;
    Divided(t, 60, 60 * h + m, s);
  }

  lemma Divided(a: nat, b: nat, q: nat, r: nat)
    requires a == b * q + r && r < b
    ensures a / b == q && a % b == r
  {
    var d := a / b;
    assert a == b * d + a % b;
    if d < q {
      MulLe(b, d + 1, q);
    } else if q < d {
      MulLe(b, q + 1, d);
    }
  }

  /** And the build date spells the date and time of its second. */
  lemma BuildDateSpelled(secs: nat) returns (y: string, m: string, d: string, h: string, n: string, s: string)
    ensures var date := CivilFromDays(secs / 86400);
      && date.year >= 0 && date.month >= 0 && date.day >= 0
      && IsNumber(y, date.year, 4) && IsNumber(m, date.month, 2) && IsNumber(d, date.day, 2)
      && IsNumber(h, secs / 3600 % 24, 2) && IsNumber(n, secs / 60 % 60, 2) && IsNumber(s, secs % 60, 2)
    ensures FormatUtc(secs) == y + "-" + m + "-" + d + " " + h + ":" + n + ":" + s + " UTC"
  {
    BuildDateIsTheCaptureDate(secs / 86400);
    ClockOfSeconds(secs);
    var date := CivilFromDays(secs / 86400);
    hide ZeroPadded, IsNumber, CivilFromDays, BuildDate;
    y, m, d := ZeroPadded(date.year, 4), ZeroPadded(date.month, 2), ZeroPadded(date.day, 2);
    h, n, s := ZeroPadded(secs / 3600 % 24, 2), ZeroPadded(secs / 60 % 60, 2), ZeroPadded(secs % 60, 2);
    ZeroPaddedIsNumber(date.year, 4);
    ZeroPaddedIsNumber(date.month, 2);
    ZeroPaddedIsNumber(date.day, 2);
    ZeroPaddedIsNumber(secs / 3600 % 24, 2);
    ZeroPaddedIsNumber(secs / 60 % 60, 2);
    ZeroPaddedIsNumber(secs % 60, 2);
  }
}
