/** Timestamps to calendar dates: the closed formula against counting days year by year and month by month. */
module Calendar {
  import opened Wrappers

  datatype Date = Date(year: nat, month: nat, day: nat)

  const SECONDS_PER_DAY := 86400

  // ---------- The calendar, counted naively ----------

  predicate IsLeap(y: nat) {
    (y % 4 == 0 && y % 100 != 0) || y % 400 == 0
  }

  function DaysInYear(y: nat): nat {
    if IsLeap(y) then 366 else 365
  }

  function DaysInMonth(y: nat, m: nat): (d: nat)
    requires 1 <= m <= 12
    ensures 28 <= d <= 31
  {
    if m == 2 then (if IsLeap(y) then 29 else 28)
    else if m == 4 || m == 6 || m == 9 || m == 11 then 30
    else 31
  }

  predicate ValidDate(d: Date) {
    1970 <= d.year && 1 <= d.month <= 12 && 1 <= d.day <= DaysInMonth(d.year, d.month)
  }

  /** Counts whole years off `days`, starting at the first day of year `y`. */
  function YearsOff(days: nat, y: nat): (nat, nat)
    decreases days
  {
    if days < DaysInYear(y) then (y, days) else YearsOff(days - DaysInYear(y), y + 1)
  }

  /** Counts whole months off `days`, starting at the first day of month `m` of year `y`. */
  function MonthsOff(days: nat, y: nat, m: nat): (nat, nat)
    requires 1 <= m <= 12
    decreases 12 - m
  {
    if m == 12 || days < DaysInMonth(y, m) then (m, days) else MonthsOff(days - DaysInMonth(y, m), y, m + 1)
  }

  /** The date `days` days after 1970-01-01. */
  function Counted(days: nat): Date {
    var (y, rest) := YearsOff(days, 1970);
    var (m, r) := MonthsOff(rest, y, 1);
    Date(y, m, r + 1)
  }

  /** Days from 1970-01-01 to the first day of year `y`. */
  function DaysBeforeYear(y: nat): nat {
    if y <= 1970 then 0 else DaysBeforeYear(y - 1) + DaysInYear(y - 1)
  }

  function DaysBeforeMonth(y: nat, m: nat): nat
    requires 1 <= m <= 12
  {
    if m == 1 then 0 else DaysBeforeMonth(y, m - 1) + DaysInMonth(y, m - 1)
  }

  /** Days from 1970-01-01 to a date: the inverse of counting. */
  function DayNumber(d: Date): nat
    requires ValidDate(d)
  {
    DaysBeforeYear(d.year) + DaysBeforeMonth(d.year, d.month) + (d.day - 1)
  }

  // ---------- The formula of the source ----------

  /** The formula before its results are narrowed to `u32`; day numbers are not negative, so the era is not either. */
  function Formula(days: nat): Date {
    var z := days + 719468;
    var era := z / 146097;
    var doe := z - era * 146097;
    var yoe := (doe - doe / 1460 + doe / 36524 - doe / 146096) / 365;
    var y := yoe + era * 400;
    var doy := doe - (365 * yoe + yoe / 4 - yoe / 100);
    YoeBounds(doe);
    FromMarch(y, doy)
  }

  /** The last lines of the formula: day `doy` of the March year `y`. */
  function FromMarch(y: nat, doy: nat): Date {
    var mp := (5 * doy + 2) / 153;
    var d := doy - (153 * mp + 2) / 5 + 1;
    var m := if mp < 10 then mp + 3 else mp - 9;
    var year := if m <= 2 then y + 1 else y;
    Date(year, m, d)
  }

  /** `year as u32`. */
  function Narrowed(d: Date): Date {
    d.(year := d.year % 0x1_0000_0000)
  }

  function UnixToYmd(ts: U64): Date {
    Narrowed(Formula(ts / SECONDS_PER_DAY))
  }

  /** First day of year `yoe` of a 400-year era whose years start on 1 March. */
  function EraYearStart(yoe: nat): nat {
    365 * yoe + yoe / 4 - yoe / 100
  }

  /** The year-of-era formula picks the year whose days include `doe`, over a whole era. */
  lemma YoeBounds(doe: nat)
    requires doe <= 146096
    ensures 0 <= (doe - doe / 1460 + doe / 36524 - doe / 146096) / 365 <= 399
    ensures
      var yoe := (doe - doe / 1460 + doe / 36524 - doe / 146096) / 365;
      && EraYearStart(yoe) <= doe
      && doe < EraYearStart(yoe + 1) + (if yoe == 399 then 1 else 0)
  {
    var c := doe / 36524;
    var r := doe % 36524;
    assert doe == 36524 * c + r;
    if doe == 146096 {
    } else {
      assert c <= 3;
      assert doe / 146096 == 0;
      var q := r / 1461;
      var s := r % 1461;
      assert r == 1461 * q + s;
      var e := (q + s + 24 * c) / 1460;
      assert doe == 1460 * (25 * c + q) + (q + s + 24 * c);
      assert doe / 1460 == 25 * c + q + e;
      assert 0 <= e <= 1;
      var n := (s - e) / 365;
      YearInCycle(c, q, s, e);
      var yoe := 100 * c + 4 * q + n;
      assert doe - doe / 1460 + doe / 36524 == 365 * (100 * c + 4 * q) + (s - e);
      assert (doe - doe / 1460 + doe / 36524 - doe / 146096) / 365 == yoe;
      YearStart(c, q, n);
    }
  }

  lemma YearInCycle(c: nat, q: nat, s: nat, e: nat)
    requires c <= 3 && q <= 24 && s <= 1460 && e == (q + s + 24 * c) / 1460
    requires q == 24 ==> s <= 1459
    ensures s >= e && 0 <= (s - e) / 365 <= 3
    ensures 365 * ((s - e) / 365) <= s
    ensures (s - e) / 365 == 3 || s < 365 * ((s - e) / 365 + 1)
  {
  }

  lemma YearStart(c: nat, q: nat, n: nat)
    requires c <= 3 && q <= 24 && n <= 3
    ensures EraYearStart(100 * c + 4 * q + n) == 36524 * c + 1461 * q + 365 * n
    ensures EraYearStart(100 * c + 4 * q + n + 1)
         == 36524 * c + 1461 * q + 365 * (n + 1) + (if n == 3 && q < 24 then 1 else 0)
  {
    var y := 100 * c + 4 * q + n;
    assert y / 4 == 25 * c + q;
    assert y / 100 == c;
    if n == 3 {
      assert (y + 1) / 4 == 25 * c + q + 1;
      assert (y + 1) / 100 == if q == 24 then c + 1 else c;
    } else {
      assert (y + 1) / 4 == 25 * c + q;
      assert (y + 1) / 100 == c;
    }
  }

  // ---------- Years that start on 1 March ----------

  /** Days from 0000-03-01 to 1 March of year `y`. */
  function MarchStart(y: nat): nat {
    365 * y + y / 4 - y / 100 + y / 400
  }

  function LeapDay(y: nat): nat {
    if IsLeap(y) then 1 else 0
  }

  lemma LeapsAddUp(y: nat)
    requires y > 0
    ensures y / 4 - y / 100 + y / 400 == (y - 1) / 4 - (y - 1) / 100 + (y - 1) / 400 + LeapDay(y)
  {
    StepsOf(y, 4);
    StepsOf(y, 100);
    StepsOf(y, 400);
    assert y % 400 == 0 ==> y % 100 == 0;
    assert y % 100 == 0 ==> y % 4 == 0;
  }

  lemma StepsOf(y: nat, k: nat)
    requires y > 0 && (k == 4 || k == 100 || k == 400)
    ensures y / k == (y - 1) / k + (if y % k == 0 then 1 else 0)
  {
  }

  /** 1 January of a year, in days since 1970, in terms of the following 1 March. */
  lemma {:induction false} YearFromMarch(y: nat)
    requires y >= 1970
    ensures DaysBeforeYear(y) + 719468 + 59 + LeapDay(y) == MarchStart(y)
  {
    if y > 1970 {
      YearFromMarch(y - 1);
      LeapsAddUp(y);
    }
  }

  lemma {:induction false} MarchMonotone(a: nat, b: nat)
    requires a <= b
    ensures MarchStart(a) <= MarchStart(b)
    decreases b - a
  {
    if a < b {
      LeapsAddUp(b);
      MarchMonotone(a, b - 1);
    }
  }

  lemma EraIsMarch(era: nat, yoe: nat)
    requires yoe <= 400
    ensures MarchStart(yoe + era * 400) == era * 146097 + EraYearStart(yoe) + (if yoe == 400 then 1 else 0)
  {
    var y := yoe + era * 400;
    assert y / 4 == yoe / 4 + era * 100;
    assert y / 100 == yoe / 100 + era * 4;
    assert y / 400 == yoe / 400 + era;
  }

  /** The formula finds the March year around `z`. */
  lemma MarchYear(days: nat)
    returns (y: nat, doy: nat)
    ensures MarchStart(y) + doy == days + 719468 && doy < 365 + LeapDay(y + 1)
    ensures y >= 1969 && (y == 1969 ==> doy >= 306)
    ensures Formula(days) == FromMarch(y, doy)
  {
    var era, yoe, doy' := FormulaShape(days);
    MarchYearAround(days + 719468, era, yoe, doy');
    y, doy := yoe + era * 400, doy';
  }

  lemma FormulaShape(days: nat) returns (era: nat, yoe: nat, doy: nat)
    ensures yoe <= 399 && days + 719468 == era * 146097 + EraYearStart(yoe) + doy
    ensures EraYearStart(yoe) + doy < EraYearStart(yoe + 1) + (if yoe == 399 then 1 else 0)
    ensures Formula(days) == FromMarch(yoe + era * 400, doy)
  {
    hide FromMarch;
    var z := days + 719468;
    era := z / 146097;
    var doe := z - era * 146097;
    YoeBounds(doe);
    yoe := (doe - doe / 1460 + doe / 36524 - doe / 146096) / 365;
    doy := doe - (365 * yoe + yoe / 4 - yoe / 100);
  }

  lemma MarchYearAround(z: nat, era: nat, yoe: nat, doy: nat)
    requires z >= 719468 && yoe <= 399
    requires z == era * 146097 + EraYearStart(yoe) + doy
    requires EraYearStart(yoe) + doy < EraYearStart(yoe + 1) + (if yoe == 399 then 1 else 0)
    ensures MarchStart(yoe + era * 400) + doy == z
    ensures doy < 365 + LeapDay(yoe + era * 400 + 1)
    ensures yoe + era * 400 >= 1969 && (yoe + era * 400 == 1969 ==> doy >= 306)
  {
    var y := yoe + era * 400;
    EraIsMarch(era, yoe);
    EraIsMarch(era, yoe + 1);
    LeapsAddUp(y + 1);
    assert MarchStart(1969) == 719162;
  }

  lemma MonthTable(y: nat, doy: nat)
    requires doy < 365 + LeapDay(y + 1)
    ensures
      var mp := (5 * doy + 2) / 153;
      var d := doy - (153 * mp + 2) / 5 + 1;
      && 0 <= mp <= 11
      && (mp < 10 ==> 1 <= d <= DaysInMonth(y, mp + 3) && DaysBeforeMonth(y, mp + 3) == 59 + LeapDay(y) + (153 * mp + 2) / 5)
      && (mp >= 10 ==> 1 <= d <= DaysInMonth(y + 1, mp - 9) && DaysBeforeMonth(y + 1, mp - 9) == (153 * mp + 2) / 5 - 306)
  {
    MonthSums(y);
    var mp := (5 * doy + 2) / 153;
    assert mp == 0 || mp == 1 || mp == 2 || mp == 3 || mp == 4 || mp == 5
        || mp == 6 || mp == 7 || mp == 8 || mp == 9 || mp == 10 || mp == 11;
  }

  lemma MonthSums(y: nat)
    ensures DaysBeforeMonth(y, 3) == 59 + LeapDay(y) && DaysBeforeMonth(y, 4) == 90 + LeapDay(y)
    ensures DaysBeforeMonth(y, 5) == 120 + LeapDay(y) && DaysBeforeMonth(y, 6) == 151 + LeapDay(y)
    ensures DaysBeforeMonth(y, 7) == 181 + LeapDay(y) && DaysBeforeMonth(y, 8) == 212 + LeapDay(y)
    ensures DaysBeforeMonth(y, 9) == 243 + LeapDay(y) && DaysBeforeMonth(y, 10) == 273 + LeapDay(y)
    ensures DaysBeforeMonth(y, 11) == 304 + LeapDay(y) && DaysBeforeMonth(y, 12) == 334 + LeapDay(y)
  {
    assert DaysBeforeMonth(y, 2) == 31;
    assert DaysBeforeMonth(y, 3) == 59 + LeapDay(y);
    assert DaysBeforeMonth(y, 5) == 120 + LeapDay(y);
    assert DaysBeforeMonth(y, 7) == 181 + LeapDay(y);
    assert DaysBeforeMonth(y, 9) == 243 + LeapDay(y);
    assert DaysBeforeMonth(y, 11) == 304 + LeapDay(y);
  }

  /** The formula's date exists, and it is exactly `days` days after 1970-01-01. */
  lemma FormulaInverts(days: nat)
    ensures ValidDate(Formula(days)) && DayNumber(Formula(days)) == days
  {
    var y, doy := MarchYear(days);
    MonthTable(y, doy);
    LeapsAddUp(y + 1);
    YearFromMarch(y + 1);
    if y >= 1970 { YearFromMarch(y); }
  }

  // ---------- Counting inverts numbering ----------

  lemma {:induction false} YearsOffNumber(y0: nat, y: nat, rest: nat)
    requires 1970 <= y0 <= y && rest < DaysInYear(y)
    ensures DaysBeforeYear(y0) <= DaysBeforeYear(y)
    ensures YearsOff(DaysBeforeYear(y) - DaysBeforeYear(y0) + rest, y0) == (y, rest)
    decreases y - y0
  {
    if y0 < y { YearsOffNumber(y0 + 1, y, rest); }
  }

  lemma {:induction false} MonthsOffNumber(y: nat, m0: nat, m: nat, rest: nat)
    requires 1 <= m0 <= m <= 12 && rest < DaysInMonth(y, m)
    ensures DaysBeforeMonth(y, m0) <= DaysBeforeMonth(y, m)
    ensures MonthsOff(DaysBeforeMonth(y, m) - DaysBeforeMonth(y, m0) + rest, y, m0) == (m, rest)
    decreases m - m0
  {
    if m0 < m { MonthsOffNumber(y, m0 + 1, m, rest); }
  }

  /** Days in a year before the end of a month fit in the year. */
  lemma MonthFits(y: nat, m: nat)
    requires 1 <= m <= 12
    ensures DaysBeforeMonth(y, m) + DaysInMonth(y, m) <= DaysInYear(y)
  {
    MonthSums(y);
    assert DaysBeforeMonth(y, 2) == 31;
  }

  /** Counting off the day number of a valid date finds that date: days-from-civil and its inverse. */
  lemma CountedNumber(d: Date)
    requires ValidDate(d)
    ensures Counted(DayNumber(d)) == d
  {
    hide DaysBeforeYear, DaysBeforeMonth, DaysInYear, DaysInMonth, YearsOff, MonthsOff;
    StartsAtZero(d.year);
    MonthFits(d.year, d.month);
    YearsOffNumber(1970, d.year, DaysBeforeMonth(d.year, d.month) + d.day - 1);
    MonthsOffNumber(d.year, 1, d.month, d.day - 1);
  }

  lemma StartsAtZero(y: nat)
    ensures DaysBeforeYear(1970) == 0 && DaysBeforeMonth(y, 1) == 0
  {
  }

  /** The closed formula is counting, for every day number. */
  lemma {:induction false} FormulaIsCounting(days: nat)
    ensures Formula(days) == Counted(days)
  {
    FormulaInverts(days);
    CountedNumber(Formula(days));
  }

  /** The first second of the year 2^32. */
  const FIRST_WRAPPED_TIMESTAMP := 135_536_014_634_284_800

  lemma YearBound(days: nat, y: nat)
    requires y >= 1970
    ensures Counted(days).year < y <==> days < DaysBeforeYear(y)
  {
    FormulaIsCounting(days);
    FormulaInverts(days);
    hide Formula, Counted;
    var d := Formula(days);
    MonthFits(d.year, d.month);
    if d.year < y { YearsMonotone(d.year, y); }
    if y < d.year { YearsMonotone(y, d.year); }
  }

  lemma WrappedYearStarts(y: nat)
    requires y == 0x1_0000_0000
    ensures DaysBeforeYear(y) * SECONDS_PER_DAY == FIRST_WRAPPED_TIMESTAMP
  {
    YearFromMarch(y);
    assert y / 4 == 0x4000_0000 && y / 100 == 42949672 && y / 400 == 10737418 && y % 100 == 96;
  }

  /**
   * The date of a timestamp is the counted date exactly when the counted year fits in a `u32`, that is, for every
   * timestamp before the first second of the year 2^32; beyond that the narrowing conversion changes the year.
   */
  lemma {:induction false} UnixToYmdIsCounting(ts: U64)
    ensures UnixToYmd(ts) == Counted(ts / SECONDS_PER_DAY) <==> Counted(ts / SECONDS_PER_DAY).year < 0x1_0000_0000
    ensures UnixToYmd(ts) == Counted(ts / SECONDS_PER_DAY) <==> ts < FIRST_WRAPPED_TIMESTAMP
  {
    hide Formula, UnixToYmd, Counted, DaysBeforeYear;
    var d := CountedAsFormula(ts);
    assert Narrowed(d) == d <==> d.year < 0x1_0000_0000;
    YearFits(ts / SECONDS_PER_DAY, 0x1_0000_0000);
  }

  lemma YearFits(days: nat, y: nat)
    requires y == 0x1_0000_0000
    ensures Counted(days).year < y <==> days * SECONDS_PER_DAY < FIRST_WRAPPED_TIMESTAMP
  {
    hide Counted, DaysBeforeYear;
    YearBound(days, y);
    WrappedYearStarts(y);
  }

  lemma CountedAsFormula(ts: U64) returns (d: Date)
    ensures d == Counted(ts / SECONDS_PER_DAY) && UnixToYmd(ts) == Narrowed(d)
  {
    d := Formula(ts / SECONDS_PER_DAY);
    FormulaIsCounting(ts / SECONDS_PER_DAY);
  }

  /** The last timestamps of the `u64` range do not fit: the promise fails there. */
  lemma {:induction false} LastTimestampWraps()
    ensures UnixToYmd(0xFFFF_FFFF_FFFF_FFFF) != Counted(0xFFFF_FFFF_FFFF_FFFF / SECONDS_PER_DAY)
  {
    var d := CountedAsFormula(0xFFFF_FFFF_FFFF_FFFF);
    LateYear(0xFFFF_FFFF_FFFF_FFFF / SECONDS_PER_DAY);
    assert Narrowed(d).year < 0x1_0000_0000;
  }

  lemma LateYear(days: nat)
    requires days >= 365 * 0x1_0000_0000 + 0x1_0000_0000
    ensures Counted(days).year > 0x1_0000_0000
  {
    FormulaIsCounting(days);
    var y, doy := MarchYear(days);
  }

  predicate Earlier(a: Date, b: Date) {
    a.year < b.year || (a.year == b.year && (a.month < b.month || (a.month == b.month && a.day < b.day)))
  }

  lemma {:induction false} MonthsMonotone(y: nat, a: nat, b: nat)
    requires 1 <= a < b <= 12
    ensures DaysBeforeMonth(y, a) + DaysInMonth(y, a) <= DaysBeforeMonth(y, b)
    decreases b
  {
    if a < b - 1 { MonthsMonotone(y, a, b - 1); }
  }

  lemma {:induction false} YearsMonotone(a: nat, b: nat)
    requires 1970 <= a < b
    ensures DaysBeforeYear(a) + DaysInYear(a) <= DaysBeforeYear(b)
    decreases b
  {
    if a < b - 1 { YearsMonotone(a, b - 1); }
  }

  lemma EarlierHasSmallerNumber(a: Date, b: Date)
    requires ValidDate(a) && ValidDate(b) && Earlier(a, b)
    ensures DayNumber(a) < DayNumber(b)
  {
    MonthFits(a.year, a.month);
    if a.year < b.year { YearsMonotone(a.year, b.year); }
    else if a.month < b.month { MonthsMonotone(a.year, a.month, b.month); }
  }

  /** Later days have later dates, and only they do. */
  lemma {:induction false} DatesAreMonotone(d1: nat, d2: nat)
    ensures d1 < d2 <==> Earlier(Formula(d1), Formula(d2))
  {
    FormulaInverts(d1);
    FormulaInverts(d2);
    var a, b := Formula(d1), Formula(d2);
    if Earlier(a, b) { EarlierHasSmallerNumber(a, b); }
    else if Earlier(b, a) { EarlierHasSmallerNumber(b, a); }
    else { assert a == b; }
  }

  lemma DateParts(ts: U64)
    ensures
      var d := UnixToYmd(ts);
      d.year < 0x1_0000_0000 && 1 <= d.month <= 12 && 1 <= d.day <= 31
  {
    FormulaInverts(ts / SECONDS_PER_DAY);
    hide Formula;
  }
}
