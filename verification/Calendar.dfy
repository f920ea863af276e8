/** Civil dates and on-disk timestamps of fs/exfat/exfat_inode.c.

    The source converts between seconds since 1970-01-01 and the packed date and
    time words of a File directory entry.  The reference calendar here is the rule
    "the day after (y, m, d)" of the proleptic Gregorian calendar, stated without
    any era arithmetic; the source's closed formulas are proved equal to it.
 */
module Calendar {
  import opened Bytes

  const SECS_PER_DAY: nat := 86400
  const MIN_TIMESTAMP: nat := 315532800    // 1980-01-01 00:00:00
  const MAX_TIMESTAMP: nat := 4354819199   // 2107-12-31 23:59:59
  const TZ_VALID: nat := 0x80
  const TWO31: nat := 0x8000_0000
  const TWO32: nat := 0x1_0000_0000

  datatype Date = Date(year: int, mon: int, mday: int)
  datatype Civil = Civil(date: Date, hour: int, min: int, sec: int)
  datatype Stamp = Stamp(date: u16, time: u16, cs: byte, tz: byte)

  // ----- the reference calendar

  predicate Leap(y: int) {
    (y % 4 == 0 && y % 100 != 0) || y % 400 == 0
  }

  function DaysInMonth(y: int, m: int): int
    requires 1 <= m <= 12
  {
    if m == 2 then (if Leap(y) then 29 else 28)
    else if m == 4 || m == 6 || m == 9 || m == 11 then 30
    else 31
  }

  predicate ValidDate(d: Date) {
    1 <= d.mon <= 12 && 1 <= d.mday <= DaysInMonth(d.year, d.mon)
  }

  predicate ValidCivil(c: Civil) {
    ValidDate(c.date) && 0 <= c.hour < 24 && 0 <= c.min < 60 && 0 <= c.sec < 60
  }

  function NextDay(d: Date): Date
    requires ValidDate(d)
  {
    if d.mday < DaysInMonth(d.year, d.mon) then d.(mday := d.mday + 1)
    else if d.mon < 12 then Date(d.year, d.mon + 1, 1)
    else Date(d.year + 1, 1, 1)
  }

  // ----- exfat_civil_from_seconds and exfat_seconds_from_civil

  /** C division truncates toward zero. */
  function TruncDiv(a: int, b: int): int
    requires b > 0
  {
    if a >= 0 then a / b else -((-a) / b)
  }

  /** The (int) conversion of a 64-bit year. */
  function ToInt32(y: int): int {
    (y + TWO31) % TWO32 - TWO31
  }

  function YearOfEra(doe: int): int {
    (doe - doe / 1460 + doe / 36524 - doe / 146096) / 365
  }

  function YearStart(yoe: int): int {
    365 * yoe + yoe / 4 - yoe / 100
  }

  /** Month counted from March and day of month, of day-of-year doy (also from March). */
  function MonthIndex(doy: int): int { (5 * doy + 2) / 153 }

  function MonthStart(mp: int): int { (153 * mp + 2) / 5 }

  /** The date of day number `days`, with the year kept in 64 bits. */
  function WideDateOfDay(days: nat): Date {
    var z := days + 719468;
    var era := TruncDiv(if z >= 0 then z else z - 146096, 146097);
    var doe := z - era * 146097;
    var yoe := YearOfEra(doe);
    var y := yoe + era * 400;
    var doy := doe - YearStart(yoe);
    var mp := MonthIndex(doy);
    var d := doy - MonthStart(mp) + 1;
    var m := if mp < 10 then mp + 3 else mp - 9;
    Date(if m <= 2 then y + 1 else y, m, d)
  }

  function CivilFromSeconds(s: u64): Civil {
    var days := s / SECS_PER_DAY;
    var rest := s - days * SECS_PER_DAY;
    var d := WideDateOfDay(days);
    Civil(d.(year := ToInt32(d.year)), rest / 3600, (rest / 60) % 60, rest % 60)
  }

  function DayOfDate(d: Date): int {
    var y := d.year - (if d.mon <= 2 then 1 else 0);
    var era := TruncDiv(if y >= 0 then y else y - 399, 400);
    var yoe := y - era * 400;
    var madj := if d.mon > 2 then d.mon - 3 else d.mon + 9;
    var doy := MonthStart(madj) + d.mday - 1;
    era * 146097 + (YearStart(yoe) + doy) - 719468
  }

  function SecondsFromCivil(c: Civil): int {
    var days := DayOfDate(c.date);
    (if days < 0 then 0 else days) * SECS_PER_DAY + c.hour * 3600 + c.min * 60 + c.sec
  }

  // ----- the closed formulas against the reference calendar

  /** Day k of year b of four-year cycle f of century c, counted from the start of an era. */
  predicate InEra(c: int, f: int, b: int, k: int) {
    && 0 <= c < 4 && 0 <= f < 25 && 0 <= b < 4 && 0 <= k
    && k < (if b == 3 && (f < 24 || c == 3) then 366 else 365)
  }

  /** Every day of an era has such a position. */
  lemma EraPosition(doe: int) returns (c: int, f: int, b: int, k: int)
    requires 0 <= doe < 146097
    ensures InEra(c, f, b, k) && doe == 36524 * c + 1461 * f + 365 * b + k
  {
    c := if doe / 36524 == 4 then 3 else doe / 36524;
    var r := doe - 36524 * c;
    f := if r / 1461 == 25 then 24 else r / 1461;
    var q := r - 1461 * f;
    b := if q / 365 == 4 then 3 else q / 365;
    k := q - 365 * b;
  }

  lemma CyclesBefore(c: int, f: int, b: int, k: int)
    requires InEra(c, f, b, k)
    ensures var doe := 36524 * c + 1461 * f + 365 * b + k;
            doe / 1460 == 25 * c + f + (if 24 * c + f + 365 * b + k < 1460 then 0 else 1)
  {
  }

  lemma CenturiesBefore(c: int, f: int, b: int, k: int)
    requires InEra(c, f, b, k)
    ensures var doe := 36524 * c + 1461 * f + 365 * b + k; doe / 36524 - doe / 146096 == c
  {
  }

  lemma YearOfEraAt(c: int, f: int, b: int, k: int)
    requires InEra(c, f, b, k)
    ensures YearOfEra(36524 * c + 1461 * f + 365 * b + k) == 100 * c + 4 * f + b
    ensures YearStart(100 * c + 4 * f + b) == 36524 * c + 1461 * f + 365 * b
  {
    CyclesBefore(c, f, b, k);
    CenturiesBefore(c, f, b, k);
    assert (100 * c + 4 * f + b) / 4 == 25 * c + f;
  }

  lemma MonthBounds(doy: int)
    requires 0 <= doy < 366
    ensures 0 <= MonthIndex(doy) < 12
    ensures MonthStart(MonthIndex(doy)) <= doy < MonthStart(MonthIndex(doy) + 1)
  {
  }

  /** The date at a position of an era. */
  function DateAt(era: int, c: int, f: int, b: int, k: int): Date {
    var mp := MonthIndex(k);
    var y := (100 * c + 4 * f + b) + era * 400;
    if mp < 10 then Date(y, mp + 3, k - MonthStart(mp) + 1)
    else Date(y + 1, mp - 9, k - MonthStart(mp) + 1)
  }

  lemma DateOfDayAt(days: nat) returns (era: int, c: int, f: int, b: int, k: int)
    ensures era >= 0 && InEra(c, f, b, k)
    ensures days + 719468 == era * 146097 + 36524 * c + 1461 * f + 365 * b + k
    ensures WideDateOfDay(days) == DateAt(era, c, f, b, k)
  {
    hide YearOfEra, YearStart, MonthIndex, MonthStart;
    var z := days + 719468;
    era := z / 146097;
    assert 0 <= z - era * 146097 < 146097;
    c, f, b, k := EraPosition(z - era * 146097);
    YearOfEraAt(c, f, b, k);
    MonthBounds(k);
  }

  lemma Multiple(m: int, q: int, r: int)
    requires 0 < r <= m
    ensures (m * q + r) % m == 0 <==> r == m
  {
    if r == m {
      assert m * q + r == m * (q + 1);
      DivModUnique(m * q + r, m, q + 1, 0);
    } else {
      DivModUnique(m * q + r, m, q, r);
    }
  }

  lemma LeapAt(era: int, c: int, f: int, b: int)
    requires 0 <= c < 4 && 0 <= f < 25 && 0 <= b < 4
    ensures Leap((100 * c + 4 * f + b) + era * 400 + 1) <==> b == 3 && (f < 24 || c == 3)
  {
    Multiple(4, 25 * c + f + 100 * era, b + 1);
    Multiple(100, c + 4 * era, 4 * f + b + 1);
    Multiple(400, era, 100 * c + 4 * f + b + 1);
  }

  /** Length of the month counted from March, February left to the year's length. */
  lemma MonthLength(mp: int, y: int)
    requires 0 <= mp < 11
    ensures DaysInMonth(y, if mp < 10 then mp + 3 else mp - 9) == MonthStart(mp + 1) - MonthStart(mp)
  {
  }

  lemma MonthIndexUnique(doy: int, mp: int)
    requires 0 <= mp < 12 && MonthStart(mp) <= doy < MonthStart(mp + 1)
    ensures MonthIndex(doy) == mp
  {
  }

  lemma DateAtValid(era: int, c: int, f: int, b: int, k: int)
    requires InEra(c, f, b, k)
    ensures ValidDate(DateAt(era, c, f, b, k))
  {
    MonthBounds(k);
    if MonthIndex(k) < 11 {
      MonthLength(MonthIndex(k), DateAt(era, c, f, b, k).year);
    } else {
      LeapAt(era, c, f, b);
    }
  }

  /** Within a year counted from March, the next position is the next day. */
  lemma DateAtStep(era: int, c: int, f: int, b: int, k: int)
    requires InEra(c, f, b, k) && InEra(c, f, b, k + 1)
    ensures ValidDate(DateAt(era, c, f, b, k))
    ensures DateAt(era, c, f, b, k + 1) == NextDay(DateAt(era, c, f, b, k))
  {
    DateAtValid(era, c, f, b, k);
    MonthBounds(k);
    var mp := MonthIndex(k);
    if mp < 11 {
      MonthLength(mp, DateAt(era, c, f, b, k).year);
      MonthIndexUnique(k + 1, if k + 1 < MonthStart(mp + 1) then mp else mp + 1);
    } else {
      MonthIndexUnique(k + 1, 11);
      LeapAt(era, c, f, b);
    }
  }

  lemma LastMonth(k: int)
    requires 337 <= k < 366
    ensures MonthIndex(k) == 11 && MonthStart(11) == 337
  {
  }

  lemma FirstDay()
    ensures MonthIndex(0) == 0 && MonthStart(0) == 0
  {
  }

  /** The last day of a year counted from March is the end of February. */
  lemma DateAtYearEnd(era: int, c: int, f: int, b: int, k: int)
    requires InEra(c, f, b, k) && !InEra(c, f, b, k + 1)
    ensures ValidDate(DateAt(era, c, f, b, k))
    ensures NextDay(DateAt(era, c, f, b, k)) == Date((100 * c + 4 * f + b) + era * 400 + 1, 3, 1)
  {
    hide MonthIndex, MonthStart, Leap;
    LastMonth(k);
    LeapAt(era, c, f, b);
  }

  lemma LastDayOfYear(c: int, f: int, b: int, k: int)
    requires InEra(c, f, b, k) && !InEra(c, f, b, k + 1)
    ensures k == if b == 3 && (f < 24 || c == 3) then 365 else 364
  {
  }

  /** The position of the day after the last day of a year; `carry` says whether the era ends. */
  lemma NextYear(c: int, f: int, b: int, k: int) returns (carry: int, c': int, f': int, b': int)
    requires InEra(c, f, b, k) && !InEra(c, f, b, k + 1)
    ensures InEra(c', f', b', 0)
    ensures carry * 146097 + 36524 * c' + 1461 * f' + 365 * b' == 36524 * c + 1461 * f + 365 * b + k + 1
    ensures (100 * c' + 4 * f' + b') + carry * 400 == (100 * c + 4 * f + b) + 1
  {
    LastDayOfYear(c, f, b, k);
    if b < 3 {
      return 0, c, f, b + 1;
    } else if f < 24 {
      return 0, c, f + 1, b - 3;
    } else if c < 3 {
      return 0, c + 1, f - 24, b - 3;
    } else {
      return 1, c - 3, f - 24, b - 3;
    }
  }

  /** The position of the following day. */
  lemma NextPosition(era: int, c: int, f: int, b: int, k: int)
    returns (era': int, c': int, f': int, b': int, k': int)
    requires InEra(c, f, b, k)
    ensures InEra(c', f', b', k')
    ensures era' * 146097 + 36524 * c' + 1461 * f' + 365 * b' + k' == era * 146097 + 36524 * c + 1461 * f + 365 * b + k + 1
    ensures ValidDate(DateAt(era, c, f, b, k))
    ensures DateAt(era', c', f', b', k') == NextDay(DateAt(era, c, f, b, k))
  {
    hide MonthIndex, MonthStart, ValidDate, NextDay;
    if InEra(c, f, b, k + 1) {
      DateAtStep(era, c, f, b, k);
      return era, c, f, b, k + 1;
    }
    DateAtYearEnd(era, c, f, b, k);
    var carry;
    carry, c', f', b' := NextYear(c, f, b, k);
    era', k' := era + carry, 0;
    FirstDay();
  }

  /** The position of a day is determined by its number. */
  lemma EraPositionUnique(era: int, c: int, f: int, b: int, k: int, era': int, c': int, f': int, b': int, k': int)
    requires InEra(c, f, b, k) && InEra(c', f', b', k')
    requires era * 146097 + 36524 * c + 1461 * f + 365 * b + k == era' * 146097 + 36524 * c' + 1461 * f' + 365 * b' + k'
    ensures era == era' && c == c' && f == f' && b == b' && k == k'
  {
    assert 0 <= 36524 * c + 1461 * f + 365 * b + k < 146097 && 0 <= 36524 * c' + 1461 * f' + 365 * b' + k' < 146097;
    YearOfEraAt(c, f, b, k);
    YearOfEraAt(c', f', b', k');
  }

  lemma EpochDate()
    ensures WideDateOfDay(0) == Date(1970, 1, 1)
  {
  }

  /** The source's formula starts at 1970-01-01 and advances by exactly one calendar day. */
  lemma CivilIsTheCalendar(days: nat)
    ensures WideDateOfDay(0) == Date(1970, 1, 1)
    ensures ValidDate(WideDateOfDay(days))
    ensures WideDateOfDay(days + 1) == NextDay(WideDateOfDay(days))
  {
    hide *;
    EpochDate();
    var era, c, f, b, k := DateOfDayAt(days);
    var e1, c1, f1, b1, k1 := DateOfDayAt(days + 1);
    var e2, c2, f2, b2, k2 := NextPosition(era, c, f, b, k);
    EraPositionUnique(e1, c1, f1, b1, k1, e2, c2, f2, b2, k2);
  }

  lemma EraOfYear(era: int, yoe: int)
    requires era >= 0 && 0 <= yoe < 400
    ensures TruncDiv(yoe + era * 400, 400) == era
  {
  }

  lemma DayOfDateAt(era: int, c: int, f: int, b: int, k: int)
    requires era >= 0 && InEra(c, f, b, k)
    ensures DayOfDate(DateAt(era, c, f, b, k)) == era * 146097 + 36524 * c + 1461 * f + 365 * b + k - 719468
  {
    hide MonthIndex, MonthStart, YearOfEra, YearStart, TruncDiv;
    YearOfEraAt(c, f, b, k);
    MonthBounds(k);
    EraOfYear(era, 100 * c + 4 * f + b);
  }

  lemma DayOfDateInverts(days: nat)
    ensures DayOfDate(WideDateOfDay(days)) == days
  {
    hide *;
    var era, c, f, b, k := DateOfDayAt(days);
    DayOfDateAt(era, c, f, b, k);
  }

  // ----- how far the conversion reaches: the year is returned in an int

  const INT_YEAR_DAYS: nat := 784351576777   // day number of 1 January 2^31
  const INT_YEAR_SECS: nat := INT_YEAR_DAYS * SECS_PER_DAY

  lemma {:induction false} YearMonotone(d1: nat, d2: nat)
    requires d1 <= d2
    ensures WideDateOfDay(d1).year <= WideDateOfDay(d2).year
    decreases d2
  {
    hide WideDateOfDay;
    if d1 < d2 {
      YearMonotone(d1, d2 - 1);
      CivilIsTheCalendar(d2 - 1);
    }
  }

  lemma DayAtPosition(days: nat, era: int, c: int, f: int, b: int, k: int)
    requires InEra(c, f, b, k) && days + 719468 == era * 146097 + 36524 * c + 1461 * f + 365 * b + k
    ensures WideDateOfDay(days) == DateAt(era, c, f, b, k)
  {
    hide *;
    var e1, c1, f1, b1, k1 := DateOfDayAt(days);
    EraPositionUnique(e1, c1, f1, b1, k1, era, c, f, b, k);
  }

  lemma IntYearBoundary()
    ensures WideDateOfDay(INT_YEAR_DAYS).year == TWO31
    ensures WideDateOfDay(INT_YEAR_DAYS - 1).year == TWO31 - 1
  {
    hide WideDateOfDay, MonthStart;
    DayAtPosition(INT_YEAR_DAYS, 5368709, 0, 11, 3, 306);
    DayAtPosition(INT_YEAR_DAYS - 1, 5368709, 0, 11, 3, 305);
  }

  lemma YearFitsInt(days: nat)
    ensures 1970 <= WideDateOfDay(days).year
    ensures days < INT_YEAR_DAYS <==> WideDateOfDay(days).year < TWO31
  {
    hide WideDateOfDay;
    EpochDate();
    IntYearBoundary();
    YearMonotone(0, days);
    if days < INT_YEAR_DAYS {
      YearMonotone(days, INT_YEAR_DAYS - 1);
    } else {
      YearMonotone(INT_YEAR_DAYS, days);
    }
  }

  lemma FloorEra(y: int)
    ensures var era := TruncDiv(if y >= 0 then y else y - 399, 400); 0 <= y - era * 400 < 400
  {
  }

  lemma MonthStartBound(mp: int)
    requires 0 <= mp < 12
    ensures MonthStart(mp) + 31 <= if mp < 10 then 306 else 368
  {
  }

  /** No date with an int year lies on or after the boundary. */
  lemma IntDatesBelowBoundary(d: Date)
    requires d.year < TWO31 && 1 <= d.mon <= 12 && 1 <= d.mday <= 31
    ensures DayOfDate(d) < INT_YEAR_DAYS
  {
    hide TruncDiv, MonthStart;
    var y := d.year - (if d.mon <= 2 then 1 else 0);
    FloorEra(y);
    var madj := if d.mon > 2 then d.mon - 3 else d.mon + 9;
    MonthStartBound(madj);
  }

  lemma ClockFields(rest: int)
    requires 0 <= rest < SECS_PER_DAY
    ensures rest == rest / 3600 * 3600 + (rest / 60) % 60 * 60 + rest % 60
    ensures rest / 3600 < 24
  {
  }

  lemma DateRange(d: Date)
    requires ValidDate(d)
    ensures 1 <= d.mon <= 12 && 1 <= d.mday <= 31
  {
  }

  lemma CivilRoundTripInRange(s: u64)
    requires s < INT_YEAR_SECS
    ensures SecondsFromCivil(CivilFromSeconds(s)) == s
    ensures ValidCivil(CivilFromSeconds(s))
    ensures CivilFromSeconds(s).date == WideDateOfDay(s / SECS_PER_DAY)
  {
    hide WideDateOfDay, DayOfDate, ValidDate;
    var days := s / SECS_PER_DAY;
    ClockFields(s - days * SECS_PER_DAY);
    YearFitsInt(days);
    CivilIsTheCalendar(days);
    DayOfDateInverts(days);
  }

  lemma CivilRoundTripOutOfRange(s: u64)
    requires INT_YEAR_SECS <= s
    ensures SecondsFromCivil(CivilFromSeconds(s)) != s
  {
    hide WideDateOfDay, DayOfDate, ValidDate;
    var days := s / SECS_PER_DAY;
    var d := WideDateOfDay(days);
    CivilIsTheCalendar(days);
    DateRange(d);
    IntDatesBelowBoundary(d.(year := ToInt32(d.year)));
    ClockFields(s - days * SECS_PER_DAY);
  }

  /** exfat_seconds_from_civil undoes exfat_civil_from_seconds exactly as long as the year fits an
      int; below that limit the produced date is a day of the calendar. */
  lemma CivilRoundTrip(s: u64)
    ensures SecondsFromCivil(CivilFromSeconds(s)) == s <==> s < INT_YEAR_SECS
    ensures s < INT_YEAR_SECS ==> ValidCivil(CivilFromSeconds(s))
  {
    hide *;
    if s < INT_YEAR_SECS {
      CivilRoundTripInRange(s);
    } else {
      CivilRoundTripOutOfRange(s);
    }
  }

  // ----- the other direction: every calendar day from 1970 on is produced

  lemma PositionOfDate(d: Date) returns (era: int, c: int, f: int, b: int, k: int)
    requires ValidDate(d) && 1970 <= d.year
    ensures era >= 0 && InEra(c, f, b, k) && d == DateAt(era, c, f, b, k)
  {
    hide MonthIndex, MonthStart, Leap;
    var y := d.year - (if d.mon <= 2 then 1 else 0);
    var mp := if d.mon > 2 then d.mon - 3 else d.mon + 9;
    era, c, f, b := y / 400, (y % 400) / 100, (y % 100) / 4, y % 4;
    assert y == 100 * c + 4 * f + b + era * 400 by { YearDigits(y); }
    k := MonthStart(mp) + d.mday - 1;
    if mp < 11 {
      MonthLength(mp, d.year);
      MonthStartRange(mp);
      MonthIndexUnique(k, mp);
    } else {
      LeapAt(era, c, f, b);
      LastMonth(337);
      LastMonth(k);
    }
  }

  lemma YearDigits(y: int)
    requires 0 <= y
    ensures y == 100 * ((y % 400) / 100) + 4 * ((y % 100) / 4) + y % 4 + (y / 400) * 400
  {
    var q, r := y / 400, y % 400;
    var c, s := r / 100, r % 100;
    DivModUnique(y, 100, 4 * q + c, s);
    DivModUnique(y, 4, 100 * q + 25 * c + s / 4, s % 4);
  }

  lemma MonthStartRange(mp: int)
    requires 0 <= mp < 11
    ensures 0 <= MonthStart(mp) && MonthStart(mp + 1) <= 337
  {
  }

  lemma DateOfDayInverts(d: Date)
    requires ValidDate(d) && 1970 <= d.year
    ensures DayOfDate(d) >= 0
    ensures WideDateOfDay(DayOfDate(d)) == d
  {
    hide *;
    var era, c, f, b, k := PositionOfDate(d);
    DayOfDateAt(era, c, f, b, k);
    EpochReached(d, era, c, f, b, k);
    var e2, c2, f2, b2, k2 := DateOfDayAt(DayOfDate(d));
    EraPositionUnique(era, c, f, b, k, e2, c2, f2, b2, k2);
  }

  /** 1970-01-01 is day 306 of year 369 of era 4; nothing valid from 1970 on lies before it. */
  lemma EpochReached(d: Date, era: int, c: int, f: int, b: int, k: int)
    requires InEra(c, f, b, k) && d == DateAt(era, c, f, b, k) && 1970 <= d.year
    ensures era * 146097 + 36524 * c + 1461 * f + 365 * b + k >= 719468
  {
    hide MonthIndex, MonthStart;
    MonthBounds(k);
    MonthIndexJanuary(k);
  }

  lemma MonthIndexJanuary(k: int)
    requires 0 <= k < 366
    ensures MonthIndex(k) < 10 <==> k < 306
  {
  }

  /** exfat_civil_from_seconds undoes exfat_seconds_from_civil on every valid civil time from 1970 on
      whose year fits an int. */
  lemma CivilRoundTripBack(c: Civil)
    requires ValidCivil(c) && 1970 <= c.date.year < TWO31
    ensures 0 <= SecondsFromCivil(c) < INT_YEAR_SECS
    ensures CivilFromSeconds(SecondsFromCivil(c)) == c
  {
    hide WideDateOfDay, DayOfDate, ValidDate;
    DateOfDayInverts(c.date);
    DateRange(c.date);
    IntDatesBelowBoundary(c.date);
    ClockBack(c.hour, c.min, c.sec);
    DivModUnique(SecondsFromCivil(c), SECS_PER_DAY, DayOfDate(c.date), c.hour * 3600 + c.min * 60 + c.sec);
  }

  lemma ClockBack(h: int, m: int, s: int)
    requires 0 <= h < 24 && 0 <= m < 60 && 0 <= s < 60
    ensures var rest := h * 3600 + m * 60 + s;
            0 <= rest < SECS_PER_DAY && rest / 3600 == h && (rest / 60) % 60 == m && rest % 60 == s
  {
    var rest := h * 3600 + m * 60 + s;
    DivModUnique(rest, 3600, h, m * 60 + s);
    DivModUnique(rest, 60, h * 60 + m, s);
    DivModUnique(h * 60 + m, 60, h, m);
  }
}
