/** The calendar of the real-time clock (arch/sh/rtc.c): seconds since the Epoch in closed form against
    a count day by day. */
module Rtc {
  const DAY := 86400
  const EPOCH := 1970

  datatype Date = Date(year: int, month: int, day: int)

  // ---- the calendar, day by day ---------------------------------------------------------------

  predicate IsLeap(y: int) { (y % 4 == 0 && y % 100 != 0) || y % 400 == 0 }

  function MonthDays(y: int, m: int): int {
    if m == 2 then (if IsLeap(y) then 29 else 28)
    else if m == 4 || m == 6 || m == 9 || m == 11 then 30
    else 31
  }

  predicate ValidDate(d: Date) {
    d.year >= EPOCH && 1 <= d.month <= 12 && 1 <= d.day <= MonthDays(d.year, d.month)
  }

  function Tomorrow(d: Date): Date {
    if d.day < MonthDays(d.year, d.month) then d.(day := d.day + 1)
    else if d.month < 12 then Date(d.year, d.month + 1, 1)
    else Date(d.year + 1, 1, 1)
  }

  /** The date n days after the first of January 1970. */
  ghost function DateAfter(n: nat): Date {
    if n == 0 then Date(EPOCH, 1, 1) else Tomorrow(DateAfter(n - 1))
  }

  // ---- the closed form --------------------------------------------------------------------------

  /** C's division: towards zero. */
  function CDiv(a: int, b: int): int
    requires b > 0
  {
    if a >= 0 then a / b else -((-a) / b)
  }

  /** mdays_elapsed and mdays_elapsed_leap. */
  const ELAPSED: seq<int> := [0, 31, 59, 90, 120, 151, 181, 212, 243, 273, 304, 334]
  const ELAPSED_LEAP: seq<int> := [0, 31, 60, 91, 121, 152, 182, 213, 244, 274, 305, 335]

  /** The days of the years before, as the clock counts them from 1900. */
  function YearDays(year: int): int {
    var t := year - 1900;
    (t - 70) * 365 + CDiv(t - 69, 4) - CDiv(t - 1, 100) + CDiv(t + 299, 400)
  }

  function MonthIndex(month: int): (r: int)
    ensures 0 <= r < 12
  {
    if month < 1 then 0 else if month > 12 then 11 else month - 1
  }

  function DayNumber(d: Date): int {
    YearDays(d.year) + (if IsLeap(d.year) then ELAPSED_LEAP else ELAPSED)[MonthIndex(d.month)] + d.day - 1
  }

  function One(b: bool): int { if b then 1 else 0 }

  /** A year further is 365 or 366 days further. */
  lemma YearStep(year: int)
    requires year >= EPOCH
    ensures YearDays(year + 1) == YearDays(year) + (if IsLeap(year) then 366 else 365)
  {
    hide IsLeap;
    Quarter(year);
    Century(year);
    Cycle(year);
    LeapCount(year);
  }

  lemma LeapCount(year: int)
    ensures One(IsLeap(year)) == One(year % 4 == 0) - One(year % 100 == 0) + One(year % 400 == 0)
  {
    if year % 100 == 0 { FourDivides(year); }
    if year % 400 == 0 { HundredDivides(year); }
  }

  lemma FourDivides(y: int)
    requires y % 100 == 0
    ensures y % 4 == 0
  {
    assert y == 4 * (25 * (y / 100));
  }

  lemma HundredDivides(y: int)
    requires y % 400 == 0
    ensures y % 100 == 0 && y % 4 == 0
  {
    assert y == 100 * (4 * (y / 400));
    FourDivides(y);
  }

  lemma Quarter(year: int)
    requires year >= EPOCH
    ensures CDiv(year + 1 - 1900 - 69, 4) == CDiv(year - 1900 - 69, 4) + One(year % 4 == 0)
  {
  }

  lemma Century(year: int)
    requires year >= EPOCH
    ensures CDiv(year + 1 - 1900 - 1, 100) == CDiv(year - 1900 - 1, 100) + One(year % 100 == 0)
  {
  }

  lemma Cycle(year: int)
    requires year >= EPOCH
    ensures CDiv(year + 1 - 1900 + 299, 400) == CDiv(year - 1900 + 299, 400) + One(year % 400 == 0)
  {
  }

  /** The tables are the sums of the month lengths. */
  lemma MonthStep(year: int, m: int)
    requires 1 <= m <= 12
    ensures var e := if IsLeap(year) then ELAPSED_LEAP else ELAPSED;
            if m < 12 then e[m] == e[m - 1] + MonthDays(year, m)
            else e[11] + MonthDays(year, 12) == if IsLeap(year) then 366 else 365
  {
    hide IsLeap;
    if m == 1 {} else if m == 2 {} else if m == 3 {} else if m == 4 {} else if m == 5 {} else if m == 6 {}
    else if m == 7 {} else if m == 8 {} else if m == 9 {} else if m == 10 {} else if m == 11 {}
  }

  lemma TomorrowCounts(d: Date)
    requires ValidDate(d)
    ensures ValidDate(Tomorrow(d)) && DayNumber(Tomorrow(d)) == DayNumber(d) + 1
  {
    hide IsLeap, YearDays;
    MonthStep(d.year, d.month);
    if d.day == MonthDays(d.year, d.month) && d.month == 12 { YearStep(d.year); }
  }

  /** The closed form counts the days exactly. */
  lemma {:induction false} ClosedFormCounts(n: nat)
    ensures ValidDate(DateAfter(n)) && DayNumber(DateAfter(n)) == n
  {
    hide IsLeap;
    if n > 0 {
      ClosedFormCounts(n - 1);
      TomorrowCounts(DateAfter(n - 1));
    }
  }

  function Yesterday(d: Date): Date {
    if d.day > 1 then d.(day := d.day - 1)
    else if d.month > 1 then Date(d.year, d.month - 1, MonthDays(d.year, d.month - 1))
    else Date(d.year - 1, 12, 31)
  }

  /** Every date from 1970 on is reached, after as many days as the closed form says. */
  lemma {:induction false} EveryDateIsCounted(d: Date)
    requires ValidDate(d)
    ensures DayNumber(d) >= 0 && DateAfter(DayNumber(d)) == d
    decreases d.year, d.month, d.day
  {
    hide IsLeap, DayNumber;
    if d == Date(EPOCH, 1, 1) {
      ClosedFormCounts(0);
    } else {
      var y := Yesterday(d);
      assert ValidDate(y) && Tomorrow(y) == d;
      EveryDateIsCounted(y);
      TomorrowCounts(y);
    }
  }

  // ---- in 32 bits ------------------------------------------------------------------------------------

  const INT_MAX := 0x7FFF_FFFF
  const UINT_MOD := 0x1_0000_0000

  predicate FitsInt(x: int) { -INT_MAX - 1 <= x <= INT_MAX }

  /** The year part is computed in int, product by product and sum by sum. */
  predicate YearFits(year: int) {
    var t := year - 1900;
    var a, b, c, e := (t - 70) * (365 * DAY), CDiv(t - 69, 4) * DAY, CDiv(t - 1, 100) * DAY, CDiv(t + 299, 400) * DAY;
    && FitsInt(a) && FitsInt(b) && FitsInt(c) && FitsInt(e)
    && FitsInt(a + b) && FitsInt(a + b - c) && FitsInt(a + b - c + e)
  }

  /** From 1970 on the arithmetic is defined exactly up to the year 2038. */
  lemma YearFitsExact(year: int)
    requires EPOCH <= year <= 9999
    ensures YearFits(year) <==> year <= 2038
  {
    var t := year - 1900;
    if year <= 2038 {
      assert 0 <= (t - 69) / 4 <= 17 && 0 <= (t - 1) / 100 <= 1 && 0 <= (t + 299) / 400 <= 1;
    }
  }

  /** The registers, decimal digit by decimal digit. */
  datatype Registers = Registers(y1000: nat, y100: nat, y10: nat, y1: nat, mon10: nat, mon1: nat, d10: nat, d1: nat,
                                 h10: nat, h1: nat, min10: nat, min1: nat, s10: nat, s1: nat)

  function YearOf(r: Registers): nat { r.y1000 * 1000 + r.y100 * 100 + r.y10 * 10 + r.y1 }

  function DateOf(r: Registers): Date { Date(YearOf(r), r.mon10 * 10 + r.mon1, r.d10 * 10 + r.d1) }

  function SecondsOfDay(r: Registers): nat {
    ((r.h10 * 10 + r.h1) * 60 + r.min10 * 10 + r.min1) * 60 + r.s10 * 10 + r.s1
  }

  /** arch_time_get_hw: the sum is kept in an unsigned 32-bit time_t. */
  method GetTime(r: Registers) returns (sec: int)
    requires YearFits(YearOf(r))
    ensures sec == (DayNumber(DateOf(r)) * DAY + SecondsOfDay(r)) % UINT_MOD
    ensures ValidDate(DateOf(r)) && YearOf(r) <= 2038 && SecondsOfDay(r) < DAY ==>
              sec == DayNumber(DateOf(r)) * DAY + SecondsOfDay(r)
  {
    hide IsLeap, ValidDate, YearFits, YearDays, CDiv;
    var tmp := r.y1000 * 1000 + r.y100 * 100 + r.y10 * 10 + r.y1;
    var isleap := IsLeap(tmp);
    tmp := tmp - 1900;
    var ret := (tmp - 70) * (DAY * 365) + CDiv(tmp - 69, 4) * DAY
               - CDiv(tmp - 1, 100) * DAY + CDiv(tmp + 299, 400) * DAY;
    assert ret == YearDays(YearOf(r)) * DAY by { YearSeconds(YearOf(r)); }
    ret := ret % UINT_MOD;
    tmp := r.mon10 * 10 + r.mon1;
    tmp := if tmp < 1 then 0 else if tmp > 12 then 11 else tmp - 1;
    var elapsed := (if isleap then ELAPSED_LEAP else ELAPSED)[tmp];
    ret := Wrapped(ret, YearDays(YearOf(r)) * DAY, elapsed * DAY);
    tmp := r.d10 * 10 + r.d1;
    ret := Wrapped(ret, (YearDays(YearOf(r)) + elapsed) * DAY, (tmp - 1) * DAY);
    ret := Wrapped(ret, DayNumber(DateOf(r)) * DAY, SecondsOfDay(r));
    sec := ret;
    if ValidDate(DateOf(r)) && YearOf(r) <= 2038 && SecondsOfDay(r) < DAY { SmallEnough(DateOf(r)); }
  }

  lemma YearSeconds(year: int)
    ensures var t := year - 1900;
            YearDays(year) * DAY ==
            (t - 70) * (DAY * 365) + CDiv(t - 69, 4) * DAY - CDiv(t - 1, 100) * DAY + CDiv(t + 299, 400) * DAY
  {
    hide CDiv;
  }

  /** Adding to a wrapped value wraps the sum. */
  method Wrapped(ret: int, whole: int, more: int) returns (r: int)
    requires ret == whole % UINT_MOD
    ensures r == (whole + more) % UINT_MOD
  {
    r := (ret + more) % UINT_MOD;
    WrapSum(whole, more);
  }

  lemma WrapSum(a: int, b: int)
    ensures (a % UINT_MOD + b) % UINT_MOD == (a + b) % UINT_MOD
  {
  }

  lemma SmallEnough(d: Date)
    requires ValidDate(d) && d.year <= 2038
    ensures 0 <= DayNumber(d) < 25203
  {
    EveryDateIsCounted(d);
  }
}
