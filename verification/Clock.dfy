/** `EFI_TIME.GetEpoch`: from a calendar date to Unix seconds, in 64-bit arithmetic. */
module Clock {
  import opened Bytes

  const ABSOLUTE_ZERO_YEAR: int := -292277022399

  predicate IsLeap(year: int) {
    year % 4 == 0 && (year % 100 != 0 || year % 400 == 0)
  }

  // ----- the calendar, year by year and month by month -----

  function DaysIn(year: int): nat { if IsLeap(year) then 366 else 365 }

  /** The days of the years `first` up to, and without, `limit`. */
  function DaysFrom(first: int, limit: int): (d: nat)
    requires first <= limit
    decreases limit - first
  {
    if first == limit then 0 else DaysFrom(first, limit - 1) + DaysIn(limit - 1)
  }

  function MonthLength(year: int, month: int): nat {
    if month == 2 then (if IsLeap(year) then 29 else 28)
    else if month == 4 || month == 6 || month == 9 || month == 11 then 30
    else 31
  }

  /** The days of `year` before its 1-based `month`. */
  function DaysBeforeMonth(year: int, month: nat): nat
    requires month >= 1
  {
    if month == 1 then 0 else DaysBeforeMonth(year, month - 1) + MonthLength(year, month - 1)
  }

  /** Days from 1 January 1970 to 1 January of `year`, in the proleptic Gregorian calendar. */
  function YearStart(year: int): int {
    if year >= 1970 then DaysFrom(1970, year) else -(DaysFrom(year, 1970) as int)
  }

  /** Days from 1 January 1970 to a date. */
  function DayNumber(year: int, month: nat, day: int): int
    requires month >= 1
  {
    YearStart(year) + DaysBeforeMonth(year, month) + day - 1
  }

  function UnixSeconds(year: int, month: nat, day: int, hour: nat, minute: nat, second: nat): int
    requires month >= 1
  {
    DayNumber(year, month, day) * 86400 + hour * 3600 + minute * 60 + second
  }

  /** The date after (year, month, day). */
  function NextDay(year: int, month: nat, day: nat): (next: (int, nat, nat))
    requires 1 <= month <= 12
    ensures 1 <= next.1 <= 12
  {
    if day < MonthLength(year, month) then (year, month, day + 1)
    else if month < 12 then (year, month + 1, 1)
    else (year + 1, 1, 1)
  }

  /** The months of a year make the year. */
  lemma MonthsMakeYear(year: int)
    ensures DaysBeforeMonth(year, 13) == if year % 4 == 0 && (year % 100 != 0 || year % 400 == 0) then 366 else 365
  {
    TableIsCalendar(year, 13);
  }

  /** 1 January 1970 is second 0. */
  lemma EpochIsZero()
    ensures UnixSeconds(1970, 1, 1, 0, 0, 0) == 0
  {
  }

  /** Every date is a day after the one before it, in all years. */
  lemma CalendarOrder(year: int, month: nat, day: nat)
    requires 1 <= month <= 12 && 1 <= day <= MonthLength(year, month)
    ensures var next := NextDay(year, month, day);
            DayNumber(next.0, next.1, next.2) == DayNumber(year, month, day) + 1
  {
    if day == MonthLength(year, month) {
      if month < 12 {
        MonthAfter(year, month);
      } else {
        YearAfter(year);
      }
    }
  }

  lemma MonthAfter(year: int, month: nat)
    requires 1 <= month
    ensures DayNumber(year, month + 1, 1) == DayNumber(year, month, MonthLength(year, month)) + 1
  {
  }

  lemma YearAfter(year: int)
    ensures DayNumber(year + 1, 1, 1) == DayNumber(year, 12, 31) + 1
  {
    MonthsMakeYear(year);
    assert DaysBeforeMonth(year, 13) == DaysBeforeMonth(year, 12) + MonthLength(year, 12);
    NextYear(year);
  }

  lemma NextYear(year: int)
    ensures YearStart(year + 1) == YearStart(year) + DaysIn(year)
  {
    if year < 1970 {
      DaysSplit(year, year + 1, 1970);
      assert DaysFrom(year, year + 1) == DaysFrom(year, year) + DaysIn(year);
    }
  }

  // ----- daysSinceEpoch -----

  const DAYS_PER_400: int := 146097
  const DAYS_PER_100: int := 36524
  const DAYS_PER_4: int := 1461

  /** The closed form: 400-, 100- and 4-year cycles counted from year 0 of a cycle that starts with year 1. */
  function Closed(y: nat): nat {
    146097 * (y / 400) + 36524 * (y % 400 / 100) + 1461 * (y % 400 % 100 / 4) + 365 * (y % 400 % 100 % 4)
  }

  /** Whole cycles do not matter for the leap rule. */
  lemma LeapInCycle(k: int, m: nat)
    requires m < 401
    ensures IsLeap(400 * k + m) == IsLeap(m)
  {
    Mod4(100 * k, m);
    Mod100(4 * k, m);
    Mod400(k, m);
  }

  lemma Mod4(k: int, m: nat)
    ensures (4 * k + m) % 4 == m % 4
  {
  }

  lemma Mod100(k: int, m: nat)
    ensures (100 * k + m) % 100 == m % 100
  {
  }

  lemma Mod400(k: int, m: nat)
    ensures (400 * k + m) % 400 == m % 400
  {
  }

  lemma ClosedStep(y: nat)
    ensures Closed(y + 1) == Closed(y) + DaysIn(ABSOLUTE_ZERO_YEAR + y)
  {
    var q, r := y / 400, y % 400;
    assert ABSOLUTE_ZERO_YEAR + y == 400 * (q - 730692556) + (r + 1);
    LeapInCycle(q - 730692556, r + 1);
    if r == 399 {
      assert (y + 1) / 400 == q + 1 && (y + 1) % 400 == 0;
    } else {
      assert (y + 1) / 400 == q && (y + 1) % 400 == r + 1;
      CycleStep(r);
    }
  }

  /** One year on inside a 400-year cycle. */
  lemma CycleStep(r: nat)
    requires r < 399
    ensures 36524 * ((r + 1) / 100) + 1461 * ((r + 1) % 100 / 4) + 365 * ((r + 1) % 100 % 4)
         == 36524 * (r / 100) + 1461 * (r % 100 / 4) + 365 * (r % 100 % 4)
            + DaysIn(r + 1)
  {
    var c, s := r / 100, r % 100;
    assert r == 100 * c + s;
    if s == 99 {
      assert r + 1 == 100 * (c + 1);
    } else {
      assert (r + 1) / 100 == c && (r + 1) % 100 == s + 1;
      assert (r + 1) % 4 == (s + 1) % 4;
    }
  }

  lemma {:induction false} ClosedIsSum(y: nat)
    ensures Closed(y) == DaysFrom(ABSOLUTE_ZERO_YEAR, ABSOLUTE_ZERO_YEAR + y)
  {
    if y > 0 {
      ClosedIsSum(y - 1);
      ClosedStep(y - 1);
    }
  }

  /**
   * Every step is taken modulo 2^64, and the result is the sum of the year lengths modulo 2^64,
   * for every year from the zero year on.
   */
  method DaysSinceEpoch(year: int) returns (d: uint64)
    requires ABSOLUTE_ZERO_YEAR <= year < TWO_63
    ensures d == Wrap(DaysFrom(ABSOLUTE_ZERO_YEAR, year))
  {
    var y: uint64 := Wrap(year - ABSOLUTE_ZERO_YEAR);
    ghost var y0 := y;
    assert ABSOLUTE_ZERO_YEAR + y0 == year;
    var n: uint64 := y / 400;
    ghost var n400 := n;
    y := y - 400 * n;
    d := Wrap(DAYS_PER_400 * n);
    ghost var total: int := DAYS_PER_400 * n;
    n := y / 100;
    ghost var n100 := n;
    y := y - 100 * n;
    d := AddDays(d, DAYS_PER_100 * n, total);
    total := total + DAYS_PER_100 * n;
    n := y / 4;
    ghost var n4 := n;
    y := y - 4 * n;
    d := AddDays(d, DAYS_PER_4 * n, total);
    total := total + DAYS_PER_4 * n;
    n := y;
    d := AddDays(d, 365 * n, total);
    total := total + 365 * n;
    ClosedBySteps(y0, n400, n100, n4);
    ClosedIsSum(y0);
  }

  /** Taking cycles off with `y -= c * n` leaves the remainders of the closed form. */
  lemma ClosedBySteps(y: nat, n400: nat, n100: nat, n4: nat)
    requires n400 == y / 400 && n100 == (y - 400 * n400) / 100 && n4 == (y - 400 * n400 - 100 * n100) / 4
    ensures Closed(y) == DAYS_PER_400 * n400 + DAYS_PER_100 * n100 + DAYS_PER_4 * n4
                         + 365 * (y - 400 * n400 - 100 * n100 - 4 * n4)
  {
    assert y - 400 * n400 == y % 400;
    assert y - 400 * n400 - 100 * n100 == y % 400 % 100;
  }

  /** `d += days`; `total` is what `d` would be without wrapping. */
  method AddDays(d: uint64, days: int, ghost total: int) returns (r: uint64)
    requires d == Wrap(total)
    ensures r == Wrap(d + days) == Wrap(total + days)
  {
    WrapSum(days, total);
    r := Wrap(d + days);
  }

  // ----- GetEpoch -----

  datatype EfiTime = EfiTime(
    year: uint16,
    month: byte,
    day: byte,
    hour: byte,
    minute: byte,
    second: byte,
    nanosecond: uint32)

  /** The days before each month of a year that is not a leap year; the last entry is the whole year. */
  const DAYS_BEFORE: seq<nat> := [0, 31, 59, 90, 120, 151, 181, 212, 243, 273, 304, 334, 365]

  lemma {:induction false} TableIsCalendar(year: int, month: nat)
    requires 1 <= month <= 13
    ensures DaysBeforeMonth(year, month) == DAYS_BEFORE[month - 1] + if IsLeap(year) && month >= 3 then 1 else 0
  {
    if month > 1 {
      TableIsCalendar(year, month - 1);
    }
  }

  lemma {:induction false} DaysSplit(a: int, b: int, c: int)
    requires a <= b <= c
    ensures DaysFrom(a, c) == DaysFrom(a, b) + DaysFrom(b, c)
    decreases c - b
  {
    if b < c {
      DaysSplit(a, b, c - 1);
    }
  }

  const ABSOLUTE_TO_INTERNAL: int := -9223371966579724800
  const INTERNAL_TO_UNIX: int := -(1969 * 365 + 1969 / 4 - 1969 / 100 + 1969 / 400) * 86400

  /** The constants of the source span exactly the years from the zero year to 1970. */
  lemma EpochOffset()
    ensures ABSOLUTE_TO_INTERNAL + INTERNAL_TO_UNIX == -86400 * (DaysFrom(ABSOLUTE_ZERO_YEAR, 1970) as int)
  {
    ClosedIsSum(292277024369);
    ClosedAtEpoch();
  }

  lemma ClosedAtEpoch()
    ensures Closed(292277024369) == 106751991073094
  {
    assert 292277024369 / 400 == 730692560 && 292277024369 % 400 == 369;
  }

  function ToInt64(w: uint64): int { if w < TWO_63 then w else w - TWO_64 }

  /** A sum that fits a signed 64-bit integer comes out exact, however often it wrapped on the way. */
  lemma ExactInt64(total: int, offset: int)
    requires -TWO_63 <= total + offset < TWO_63
    ensures ToInt64(Wrap(ToInt64(Wrap(total)) + offset)) == total + offset
  {
    var w := Wrap(total);
    assert Wrap(ToInt64(w) + offset) == Wrap(w + offset) by {
      if w >= TWO_63 {
        WrapOnce(w + offset);
      }
    }
    WrapSum(offset, total);
    if total + offset < 0 {
      WrapOnce(total + offset + TWO_64);
    }
  }

  lemma WrapOnce(x: int)
    ensures Wrap(x - TWO_64) == Wrap(x)
  {
  }

  lemma {:induction false} DaysBound(a: int, b: int)
    requires a <= b
    ensures DaysFrom(a, b) <= 366 * (b - a)
    decreases b - a
  {
    if a < b {
      DaysBound(a, b - 1);
    }
  }

  lemma YearStartSplit(year: uint16)
    ensures DaysFrom(ABSOLUTE_ZERO_YEAR, year) == DaysFrom(ABSOLUTE_ZERO_YEAR, 1970) + YearStart(year)
    ensures -366 * 65536 <= YearStart(year) <= 366 * 65536
  {
    if year >= 1970 {
      DaysSplit(ABSOLUTE_ZERO_YEAR, 1970, year);
      DaysBound(1970, year);
    } else {
      DaysSplit(ABSOLUTE_ZERO_YEAR, year, 1970);
      DaysBound(year, 1970);
    }
  }

  /** The day as the source counts it from zero, in 8-bit arithmetic. */
  function DayIndex(day: byte): (d: nat)
    ensures d < 0x100
  {
    (day as int - 1) % 0x100
  }

  lemma DayValue(day: byte)
    ensures DayIndex(day) + 1 == if day == 0 then 256 else day as int
  {
  }

  function ToInt32(w: uint32): int { if w < 0x8000_0000 then w else w - TWO_32 }

  /** The days from the zero year to the day the source means, without wrapping. */
  function TotalDays(t: EfiTime): int
    requires 2 <= t.month <= 14
  {
    DaysFrom(ABSOLUTE_ZERO_YEAR, t.year) + DaysBeforeMonth(t.year, t.month - 1) + DayIndex(t.day)
  }

  lemma {:induction false} MonthsBound(year: int, month: nat)
    requires month >= 1
    ensures DaysBeforeMonth(year, month) <= 31 * (month - 1)
  {
    if month > 1 {
      MonthsBound(year, month - 1);
    }
  }

  const EPOCH_OFFSET: int := ABSOLUTE_TO_INTERNAL + INTERNAL_TO_UNIX

  /** The absolute seconds and the offset make the Unix seconds of the month before, well inside 64 bits. */
  lemma AbsoluteIsUnix(t: EfiTime)
    requires 2 <= t.month <= 14
    ensures var unix := UnixSeconds(t.year, t.month - 1, DayIndex(t.day) + 1, t.hour, t.minute, t.second);
            && TotalDays(t) * 86400 + (t.hour * 3600 + t.minute * 60 + t.second) + EPOCH_OFFSET == unix
            && -TWO_63 <= unix < TWO_63
  {
    EpochOffset();
    var days := DayNumber(t.year, t.month - 1, DayIndex(t.day) + 1);
    UnixDays(t);
    DaysInRange(t);
    var clock := t.hour as int * 3600 + t.minute as int * 60 + t.second as int;
    OffsetCancels(DaysFrom(ABSOLUTE_ZERO_YEAR, 1970), days, clock);
  }

  lemma UnixDays(t: EfiTime)
    requires 2 <= t.month <= 14
    ensures TotalDays(t) == DaysFrom(ABSOLUTE_ZERO_YEAR, 1970) + DayNumber(t.year, t.month - 1, DayIndex(t.day) + 1)
  {
    YearStartSplit(t.year);
  }

  lemma DaysInRange(t: EfiTime)
    requires 2 <= t.month <= 14
    ensures -366 * 65536 <= DayNumber(t.year, t.month - 1, DayIndex(t.day) + 1) <= 366 * 65536 + 31 * 13 + 256
  {
    YearStartSplit(t.year);
    MonthsBound(t.year, t.month - 1);
    SumInRange(YearStart(t.year), DaysBeforeMonth(t.year, t.month - 1), DayIndex(t.day));
  }

  lemma SumInRange(start: int, months: nat, day: nat)
    requires -366 * 65536 <= start <= 366 * 65536 && months <= 31 * 12 && day < 0x100
    ensures -366 * 65536 <= start + months + day <= 366 * 65536 + 31 * 13 + 256
  {
  }

  lemma OffsetCancels(base: int, days: int, clock: int)
    requires EPOCH_OFFSET == -86400 * base
    requires -366 * 65536 <= days <= 366 * 65536 + 31 * 13 + 256 && 0 <= clock < 1_000_000
    ensures (base + days) * 86400 + clock + EPOCH_OFFSET == days * 86400 + clock
    ensures -TWO_63 <= days * 86400 + clock < TWO_63
  {
  }

  /** The seconds of the date with its month reduced by one are those of another time, early by that month. */
  lemma AlwaysEarly(t: EfiTime, sec: int)
    requires 2 <= t.month <= 14
    requires sec == UnixSeconds(t.year, t.month - 1, DayIndex(t.day) + 1, t.hour, t.minute, t.second)
    ensures sec != Given(t)
    ensures t.day >= 1 ==> sec == Given(t) - 86400 * MonthLength(t.year, t.month - 1)
  {
    DayValue(t.day);
    assert DaysBeforeMonth(t.year, t.month) == DaysBeforeMonth(t.year, t.month - 1) + MonthLength(t.year, t.month - 1);
  }

  /** The Unix seconds of the date as given. */
  function Given(t: EfiTime): int
    requires t.month >= 1
  {
    UnixSeconds(t.year, t.month, t.day, t.hour, t.minute, t.second)
  }

  /**
   * `GetEpoch`; None is the index out of range. The seconds are exact, for every year and every day, but
   * they are those of the month before the one given, because the month is reduced by one twice. So they
   * are never those of the time given, but early by the length of the month before.
   */
  method GetEpoch(t: EfiTime) returns (r: Option<(int, int)>)
    ensures r == None <==> t.month < 2 || t.month > 14
    ensures r.Some? ==>
      && r.value.0 == UnixSeconds(t.year, t.month - 1, if t.day == 0 then 256 else t.day as int, t.hour, t.minute, t.second)
      && r.value.1 == if t.nanosecond < 0x8000_0000 then t.nanosecond as int else t.nanosecond as int - 0x1_0000_0000
    ensures r.Some? ==>
      && r.value.0 != Given(t)
      && (t.day >= 1 ==> r.value.0 == Given(t) - 86400 * MonthLength(t.year, t.month - 1))
  {
    var month: int := t.month - 1;
    if month - 1 < 0 || month - 1 >= |DAYS_BEFORE| {
      return None;
    }
    var d := Days(t.year, month, t.day);
    ghost var total := TotalDays(t);
    var abs := Wrap(d as int * 86400);
    WrapProduct(total);
    var clock: int := t.hour * 3600 + t.minute * 60 + t.second;
    abs := AddDays(abs, clock, total * 86400);
    AbsoluteIsUnix(t);
    ExactInt64(total * 86400 + clock, EPOCH_OFFSET);
    var sec := ToInt64(Wrap(ToInt64(abs) + EPOCH_OFFSET));
    DayValue(t.day);
    AlwaysEarly(t, sec);
    return Some((sec, ToInt32(t.nanosecond)));
  }

  /** The days since the zero year: lines 67 to 76 of clock.go. */
  method Days(year: uint16, month: nat, day: byte) returns (d: uint64)
    requires 1 <= month <= 13
    ensures d == Wrap(DaysFrom(ABSOLUTE_ZERO_YEAR, year) + DaysBeforeMonth(year, month) + DayIndex(day))
  {
    d := DaysSinceEpoch(year);
    ghost var total: int := DaysFrom(ABSOLUTE_ZERO_YEAR, year);
    TableIsCalendar(year, month);
    d := AddDays(d, DAYS_BEFORE[month - 1], total);
    total := total + DAYS_BEFORE[month - 1];
    if IsLeap(year) && month >= 3 {
      d := AddDays(d, 1, total);
      total := total + 1;
    }
    d := AddDays(d, DayIndex(day), total);
  }

  lemma WrapProduct(a: int)
    ensures Wrap(Wrap(a) as int * 86400) == Wrap(a * 86400)
  {
    var q := a / TWO_64;
    assert a * 86400 == Wrap(a) as int * 86400 + TWO_64 * (86400 * q);
    WrapWhole(Wrap(a) as int * 86400, 86400 * q);
  }

  lemma WrapWhole(x: int, k: int)
    ensures Wrap(x + TWO_64 * k) == Wrap(x)
  {
  }
}
