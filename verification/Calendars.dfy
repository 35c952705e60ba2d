/**
 Adding intervals to timestamps (extension/icu/icu-dateadd.cpp and extension/icu/icu-datefunc.cpp).

 The calendar counts milliseconds, timestamps count microseconds, and C++ divides toward zero; the
 code moves carries between the three. The calendar is UTC, where every unit up to the day has a
 fixed length; what adding months means is left open.
 */
module Calendars {
  import opened Wrappers
  import opened Timestamps

  // ---------------------------------------------------------------- machine arithmetic

  /** Division and remainder of C++: the quotient is rounded toward zero. */
  function Quot(a: int, b: int): (q: int)
    requires b > 0
    ensures a >= 0 ==> q * b <= a < q * b + b && q >= 0
    ensures a <= 0 ==> q * b - b < a <= q * b && q <= 0
  {
    if a >= 0 then Floor(a, b) else -Floor(-a, b)
  }

  function Floor(a: int, b: int): (q: int)
    requires b > 0
    ensures q * b <= a < q * b + b && (a >= 0 ==> q >= 0)
  {
    assert a == a / b * b + a % b;
    a / b
  }

  function Rem(a: int, b: int): (r: int)
    requires b > 0
    ensures a == Quot(a, b) * b + r
    ensures if a >= 0 then 0 <= r < b else -b < r <= 0
  {
    a - Quot(a, b) * b
  }

  predicate Fits64(v: int) {
    -0x8000_0000_0000_0000 <= v <= 0x7FFF_FFFF_FFFF_FFFF
  }

  predicate Fits32(v: int) {
    -0x8000_0000 <= v <= 0x7FFF_FFFF
  }

  /** The casts to unsigned 64-bit integers, and from them to signed ones. */
  function ToUnsigned(v: int): int {
    v % 0x1_0000_0000_0000_0000
  }

  function ToSigned64(v: int): int {
    (v + 0x8000_0000_0000_0000) % 0x1_0000_0000_0000_0000 - 0x8000_0000_0000_0000
  }

  function ToSigned32(v: int): int {
    (v + 0x8000_0000) % 0x1_0000_0000 - 0x8000_0000
  }

  // ---------------------------------------------------------------- the range of timestamps

  const MICROS_PER_MSEC: int := 1000
  const MICROS_PER_DAY: int := 86_400_000_000
  const MSECS_PER_DAY: int := 86_400_000

  /** `Timestamp::GetDate` of a finite timestamp, in days since 1970. */
  function DateOf(v: int): int {
    var negative := if v < 0 then 1 else 0;
    Quot(v + negative, MICROS_PER_DAY) - negative
  }

  /** A 64-bit value whose date, in microseconds, still fits; the infinities have no such date. */
  predicate InRange(v: int) {
    Fits64(v) && v != INFINITY && v != -INFINITY && Fits64(DateOf(v) * MICROS_PER_DAY)
  }

  const MIN_TIMESTAMP: int := -106_751_991 * MICROS_PER_DAY

  /** Dates round down, so the range begins at midnight. */
  lemma RangeOfTimestamps(v: int)
    ensures DateOf(v) * MICROS_PER_DAY <= v < (DateOf(v) + 1) * MICROS_PER_DAY
    ensures InRange(v) <==> MIN_TIMESTAMP <= v < INFINITY
  {
  }

  // ---------------------------------------------------------------- the calendar

  datatype Field = MILLISECOND | SECOND | MINUTE | HOUR | DATE | MONTH

  /** The fixed length of a unit, in milliseconds. */
  function UnitMillis(field: Field): (n: int)
    requires field != MONTH
    ensures n > 0
  {
    match field
    case MILLISECOND => 1
    case SECOND => 1000
    case MINUTE => 60_000
    case HOUR => 3_600_000
    case DATE => MSECS_PER_DAY
  }

  type MonthAdder = (int, int) -> int

  /** An ICU calendar: it holds a time in milliseconds. */
  class Calendar {
    const addMonths: MonthAdder
    var millis: int

    constructor (addMonths: MonthAdder)
      ensures this.addMonths == addMonths
    {
      this.addMonths := addMonths;
      millis := 0;
    }

    method Add(field: Field, amount: int)
      requires Fits32(amount)
      modifies this`millis
      ensures millis == if field == MONTH then addMonths(old(millis), amount) else old(millis) + amount * UnitMillis(field)
    {
      if field == MONTH {
        millis := addMonths(millis, amount);
      } else {
        millis := millis + amount * UnitMillis(field);
      }
    }

    /** `fieldDifference`: the whole units up to `when`, by which the calendar is moved. */
    method FieldDifference(when: int, field: Field) returns (n: int)
      requires field != MONTH && Fits32(Quot(when - millis, UnitMillis(field)))
      modifies this`millis
      ensures n == Quot(when - old(millis), UnitMillis(field))
      ensures millis == old(millis) + n * UnitMillis(field)
    {
      n := Quot(when - millis, UnitMillis(field));
      millis := millis + n * UnitMillis(field);
    }

    /** Moves to a timestamp, rounded down to the millisecond, and returns the rest. */
    method SetTime(date: Timestamp) returns (micros: int)
      modifies this`millis
      ensures date == millis * MICROS_PER_MSEC + micros && 0 <= micros < MICROS_PER_MSEC
    {
      millis := Quot(date, MICROS_PER_MSEC);
      micros := Rem(date, MICROS_PER_MSEC);
      if micros < 0 {
        millis := millis - 1;
        micros := micros + MICROS_PER_MSEC;
      }
      micros := ToUnsigned(micros);
    }

    /** `TryGetTime` and `GetTime`: the microseconds come as an unsigned number. */
    method GetTime(micros: int) returns (r: Result<Timestamp, TimeError>)
      requires 0 <= micros < 0x1_0000_0000_0000_0000
      ensures var t := millis * MICROS_PER_MSEC + ToSigned64(micros);
              r == if Fits64(millis * MICROS_PER_MSEC) && InRange(t) then Ok(t) else Err(OutOfRange)
    {
      var result := millis * MICROS_PER_MSEC;
      if !Fits64(result) {
        return Err(OutOfRange);
      }
      result := result + ToSigned64(micros);
      if !Fits64(result) {
        return Err(OutOfRange);
      }
      if result == INFINITY || result == -INFINITY || !Fits64(DateOf(result) * MICROS_PER_DAY) {
        return Err(OutOfRange);
      }
      r := Ok(result);
    }

    method SubtractField(field: Field, endDate: int) returns (n: int)
      requires field != MONTH && Fits32(Quot(Quot(endDate, MICROS_PER_MSEC) - millis, UnitMillis(field)))
      modifies this`millis
      ensures n == Quot(Quot(endDate, MICROS_PER_MSEC) - old(millis), UnitMillis(field))
      ensures millis == old(millis) + n * UnitMillis(field)
    {
      n := FieldDifference(Quot(endDate, MICROS_PER_MSEC), field);
    }

    /** Adds hours in steps that fit 32 bits. */
    method AddHours(hours: int)
      modifies this`millis
      ensures millis == old(millis) + hours * UnitMillis(HOUR)
    {
      var intervalHour := hours;
      if intervalHour >= 0 {
        while intervalHour > 0
          invariant millis == old(millis) + (hours - if intervalHour < 0 then 0 else intervalHour) * UnitMillis(HOUR)
        {
          Add(HOUR, if intervalHour > 0x7FFF_FFFF then 0x7FFF_FFFF else intervalHour);
          intervalHour := intervalHour - 0x7FFF_FFFF;
        }
      } else {
        while intervalHour < 0
          invariant millis == old(millis) + (hours - if intervalHour > 0 then 0 else intervalHour) * UnitMillis(HOUR)
        {
          Add(HOUR, if intervalHour < -0x8000_0000 then -0x8000_0000 else intervalHour);
          intervalHour := intervalHour + 0x8000_0000;
        }
      }
    }
  }

  datatype TimeError = OutOfRange | Infinite | ZeroWidth | PeriodNotPositive | DaysWithTime | MonthsWithDaysOrTime

  // ---------------------------------------------------------------- timestamp plus interval

  /** The microseconds below the millisecond once those of the interval are added, and the carry moved. */
  function CarriedMicros(ts: int, micros: int): (m: int)
    ensures -MICROS_PER_MSEC < m < MICROS_PER_MSEC
  {
    var m := Rem(ts, MICROS_PER_MSEC) + Rem(micros, MICROS_PER_MSEC);
    if m >= MICROS_PER_MSEC then m - MICROS_PER_MSEC else if m < 0 then m + MICROS_PER_MSEC else m
  }

  /** The milliseconds that belong to them. */
  function CarriedMillis(ts: int, micros: int): (m: int)
    ensures m * MICROS_PER_MSEC + CarriedMicros(ts, micros) == ts + Rem(micros, MICROS_PER_MSEC)
  {
    var m := Rem(ts, MICROS_PER_MSEC) + Rem(micros, MICROS_PER_MSEC);
    Quot(ts, MICROS_PER_MSEC) + if m >= MICROS_PER_MSEC then 1 else if m < 0 then -1 else 0
  }

  predicate AnyNegative(i: Interval) {
    i.months < 0 || i.days < 0 || i.micros < 0
  }

  /** The parts of an interval fit their fields. */
  predicate IsInterval(i: Interval) {
    Fits32(i.months) && Fits32(i.days) && Fits64(i.micros)
  }

  /** The order matters when there are months: a negative interval adds them after the time. */
  function Moved(addMonths: MonthAdder, millis: int, i: Interval): int {
    var time := Quot(i.micros, MICROS_PER_MSEC);
    if AnyNegative(i) then addMonths(millis + time, i.months) + i.days * MSECS_PER_DAY
    else addMonths(millis, i.months) + i.days * MSECS_PER_DAY + time
  }

  /** Timestamp plus interval, for any meaning of a month. */
  function Added(addMonths: MonthAdder, ts: Timestamp, i: Interval): Result<Timestamp, TimeError> {
    if !IsFinite(ts) then Ok(ts) else
    var start := CarriedMillis(ts, i.micros);
    var t := Moved(addMonths, start, i) * MICROS_PER_MSEC + CarriedMicros(ts, i.micros);
    if InRange(start * MICROS_PER_MSEC) && Fits64(Moved(addMonths, start, i) * MICROS_PER_MSEC) && InRange(t)
    then Ok(t) else Err(OutOfRange)
  }

  /** `ICUCalendarAdd::Operation` of a timestamp and an interval. */
  method CalendarAdd(ts: Timestamp, i: Interval, calendar: Calendar) returns (r: Result<Timestamp, TimeError>)
    requires IsInterval(i)
    modifies calendar`millis
    ensures r == Added(calendar.addMonths, ts, i)
  {
    if !IsFinite(ts) {
      return Ok(ts);
    }
    hide Moved;
    var millis, micros := CarryMicros(ts, i);
    if !InRange(millis * MICROS_PER_MSEC) {
      return Err(OutOfRange);
    }
    calendar.millis := millis;
    MoveCalendar(i, calendar);
    SignSurvives(micros);
    r := calendar.GetTime(ToUnsigned(micros));
  }

  /** The microseconds are moved by hand; what is left of them may still be negative. */
  method CarryMicros(ts: Timestamp, i: Interval) returns (millis: int, micros: int)
    requires IsInterval(i)
    ensures millis == CarriedMillis(ts, i.micros) && micros == CarriedMicros(ts, i.micros)
  {
    millis, micros := Quot(ts, MICROS_PER_MSEC), Rem(ts, MICROS_PER_MSEC);
    micros := micros + Rem(i.micros, MICROS_PER_MSEC);
    if micros >= MICROS_PER_MSEC {
      micros := micros - MICROS_PER_MSEC;
      millis := millis + 1;
    } else if micros < 0 {
      micros := micros + MICROS_PER_MSEC;
      millis := millis - 1;
    }
  }

  /** A small negative number survives the way through an unsigned parameter. */
  lemma SignSurvives(micros: int)
    requires Fits64(micros)
    ensures ToSigned64(ToUnsigned(micros)) == micros
  {
  }

  method MoveCalendar(i: Interval, calendar: Calendar)
    requires IsInterval(i)
    modifies calendar`millis
    ensures calendar.millis == Moved(calendar.addMonths, old(calendar.millis), i)
  {
    var intervalMs, intervalS, intervalM, intervalH := SplitTime(i.micros);
    hide Quot, Fits32;
    if i.months < 0 || i.days < 0 || i.micros < 0 {
      calendar.Add(MILLISECOND, intervalMs);
      calendar.Add(SECOND, intervalS);
      calendar.Add(MINUTE, intervalM);
      calendar.AddHours(intervalH);
      calendar.Add(MONTH, i.months);
      calendar.Add(DATE, i.days);
    } else {
      calendar.Add(MONTH, i.months);
      calendar.Add(DATE, i.days);
      calendar.AddHours(intervalH);
      calendar.Add(MINUTE, intervalM);
      calendar.Add(SECOND, intervalS);
      calendar.Add(MILLISECOND, intervalMs);
    }
  }

  /** The time of an interval is broken into units, all but the hours of which fit 32 bits. */
  method SplitTime(micros: int) returns (ms: int, s: int, m: int, h: int)
    ensures Quot(micros, MICROS_PER_MSEC)
            == ms + UnitMillis(SECOND) * s + UnitMillis(MINUTE) * m + UnitMillis(HOUR) * h
    ensures Fits32(ms) && Fits32(s) && Fits32(m)
  {
    hide Quot;
    h := Quot(micros, MICROS_PER_MSEC);
    ms := Rem(h, 1000);
    h := Quot(h, 1000);
    s := Rem(h, 60);
    h := Quot(h, 60);
    m := Rem(h, 60);
    h := Quot(h, 60);
  }

  /** Adding no months changes nothing. */
  ghost predicate NoMonthsIsNeutral(addMonths: MonthAdder) {
    forall m :: addMonths(m, 0) == m
  }

  function Length(i: Interval): int
    requires i.months == 0
  {
    i.days * MICROS_PER_DAY + i.micros
  }

  /** The sum is in range, and so are the time that the calendar starts from and the one that it ends at. */
  predicate CanAdd(ts: int, i: Interval)
    requires i.months == 0
  {
    && InRange(CarriedMillis(ts, i.micros) * MICROS_PER_MSEC)
    && Fits64(ts + Length(i) - CarriedMicros(ts, i.micros))
    && InRange(ts + Length(i))
  }

  /**
   Without months, all the carrying and splitting amounts to exact addition: the result is the sum,
   unless the sum or one of the two intermediate values is out of range.
   */
  lemma AddIsExact(addMonths: MonthAdder, ts: Timestamp, i: Interval)
    requires NoMonthsIsNeutral(addMonths) && i.months == 0 && IsFinite(ts)
    ensures Added(addMonths, ts, i) == if CanAdd(ts, i) then Ok(ts + Length(i)) else Err(OutOfRange)
  {
    hide InRange, CarriedMillis, CarriedMicros;
    var start := CarriedMillis(ts, i.micros);
    assert Moved(addMonths, start, i) == start + i.days * MSECS_PER_DAY + Quot(i.micros, MICROS_PER_MSEC);
  }

  /** For microseconds alone, and for days alone, the intermediate values are never the reason to fail. */
  lemma AddOneKindIsExact(addMonths: MonthAdder, ts: Timestamp, i: Interval)
    requires NoMonthsIsNeutral(addMonths) && i.months == 0 && InRange(ts) && IsFinite(ts)
    requires (i.days == 0 || i.micros == 0)
    ensures Added(addMonths, ts, i) == if InRange(ts + Length(i)) then Ok(ts + Length(i)) else Err(OutOfRange)
  {
    hide InRange, DateOf, Added, CarriedMillis, CarriedMicros;
    var sum := ts + Length(i);
    RangeOfTimestamps(ts);
    RangeOfTimestamps(sum);
    RangeOfTimestamps(CarriedMillis(ts, i.micros) * MICROS_PER_MSEC);
    AddIsExact(addMonths, ts, i);
    if i.micros == 0 {
      CarryOfNothing(ts);
    } else if InRange(sum) {
      CarryOfMicros(ts, i.micros);
    }
  }

  // ---------------------------------------------------------------- months

  /** Months alone: added once, to the millisecond at or before the timestamp; its microseconds are kept. */
  lemma MonthsAlone(addMonths: MonthAdder, ts: Timestamp, n: int)
    requires IsFinite(ts)
    ensures var start := Floor(ts, 1000);
            var t := addMonths(start, n) * 1000 + ts % 1000;
            Added(addMonths, ts, Interval(n, 0, 0))
            == if InRange(start * 1000) && Fits64(addMonths(start, n) * 1000) && InRange(t) then Ok(t) else Err(OutOfRange)
  {
    hide Added, InRange;
    assert Floor(ts, 1000) * 1000 + ts % 1000 == ts;
    if n >= 0 {
      MonthsThenDaysThenTime(addMonths, ts, Interval(n, 0, 0));
    } else {
      TimeThenMonthsThenDays(addMonths, ts, Interval(n, 0, 0));
    }
  }

  /**
   When no part of the interval is negative, the months come first, then the days, then the time; but the
   microseconds below the millisecond are added before.
   */
  lemma MonthsThenDaysThenTime(addMonths: MonthAdder, ts: Timestamp, i: Interval)
    requires IsFinite(ts) && i.months >= 0 && i.days >= 0 && i.micros >= 0
    ensures var start := Floor(ts + i.micros % 1000, 1000);
            var end := addMonths(start, i.months) + i.days * 86_400_000 + i.micros / 1000;
            var t := end * 1000 + (ts + i.micros) % 1000;
            Added(addMonths, ts, i) == if InRange(start * 1000) && Fits64(end * 1000) && InRange(t) then Ok(t) else Err(OutOfRange)
  {
    CarryIs(ts, i.micros);
    hide InRange, CarriedMillis, CarriedMicros;
  }

  /** The rests below the millisecond of two negative numbers come to more than a millisecond. */
  predicate RestsOverflow(ts: int, micros: int) {
    ts < 0 && micros < 0 && -ts % 1000 + -micros % 1000 > 1000
  }

  /** The milliseconds of a time, rounded toward zero. */
  function WholeMillis(micros: int): int {
    if micros >= 0 then micros / 1000 else -(-micros / 1000)
  }

  /**
   When a part of the interval is negative, the time comes first, then the months, then the days. What is
   left below the millisecond is negative when two negative rests come to more than a millisecond.
   */
  lemma TimeThenMonthsThenDays(addMonths: MonthAdder, ts: Timestamp, i: Interval)
    requires IsFinite(ts) && (i.months < 0 || i.days < 0 || i.micros < 0)
    ensures var time := WholeMillis(i.micros);
            var rest := ts + i.micros - time * 1000;
            var start := Floor(rest, 1000) + if RestsOverflow(ts, i.micros) then 1 else 0;
            var end := addMonths(start + time, i.months) + i.days * 86_400_000;
            var t := end * 1000 + (rest - start * 1000);
            Added(addMonths, ts, i) == if InRange(start * 1000) && Fits64(end * 1000) && InRange(t) then Ok(t) else Err(OutOfRange)
  {
    CarryIs(ts, i.micros);
    hide InRange, CarriedMillis, CarriedMicros;
  }

  /** The carry, by rounding down. */
  lemma CarryIs(ts: int, micros: int)
    ensures Quot(micros, 1000) == WholeMillis(micros)
    ensures var rest := ts + micros - WholeMillis(micros) * 1000;
            && CarriedMillis(ts, micros) == Floor(rest, 1000) + (if RestsOverflow(ts, micros) then 1 else 0)
            && CarriedMicros(ts, micros) == rest - CarriedMillis(ts, micros) * 1000
    ensures micros >= 0 ==> WholeMillis(micros) == micros / 1000 && CarriedMicros(ts, micros) == (ts + micros) % 1000
  {
  }

  // ---------------------------------------------------------------- one kind of unit

  /** Without microseconds to add, the carry rounds down to the millisecond. */
  lemma CarryOfNothing(ts: int)
    ensures 0 <= CarriedMicros(ts, 0) < MICROS_PER_MSEC
    ensures MIN_TIMESTAMP <= ts < INFINITY ==> MIN_TIMESTAMP <= CarriedMillis(ts, 0) * MICROS_PER_MSEC < INFINITY
  {
    assert Rem(0, MICROS_PER_MSEC) == 0;
    hide Quot;
  }

  lemma CarryOfMicros(ts: int, micros: int)
    requires MIN_TIMESTAMP <= ts < INFINITY && MIN_TIMESTAMP <= ts + micros < INFINITY
    ensures MIN_TIMESTAMP <= CarriedMillis(ts, micros) * MICROS_PER_MSEC < INFINITY
    ensures Fits64(ts + micros - CarriedMicros(ts, micros))
  {
    var m := Rem(ts, MICROS_PER_MSEC) + Rem(micros, MICROS_PER_MSEC);
    hide Quot;
  }

  // ---------------------------------------------------------------- timestamp minus interval

  function Negated(i: Interval): Interval {
    Interval(-i.months, -i.days, -i.micros)
  }

  /** `ICUCalendarSub::Operation` of a timestamp and an interval. The parts of it can be negated. */
  method CalendarSubInterval(ts: Timestamp, i: Interval, calendar: Calendar) returns (r: Result<Timestamp, TimeError>)
    requires IsInterval(Negated(i))
    modifies calendar`millis
    ensures r == Added(calendar.addMonths, ts, Interval(-i.months, -i.days, -i.micros))
  {
    r := CalendarAdd(ts, Interval(-i.months, -i.days, -i.micros), calendar);
  }

  /** Taking an interval away again leads back, for microseconds alone and for days alone. */
  lemma SubUndoesAdd(addMonths: MonthAdder, ts: Timestamp, i: Interval)
    requires NoMonthsIsNeutral(addMonths) && i.months == 0 && InRange(ts) && IsFinite(ts)
    requires (i.days == 0 || i.micros == 0) && InRange(ts + Length(i))
    ensures Added(addMonths, ts, i) == Ok(ts + Length(i)) && Added(addMonths, ts + Length(i), Negated(i)) == Ok(ts)
  {
    hide Added, DateOf;
    AddOneKindIsExact(addMonths, ts, i);
    AddOneKindIsExact(addMonths, ts + Length(i), Negated(i));
  }

  // ---------------------------------------------------------------- timestamp minus timestamp

  /**
   The later of two timestamps lies within the first millisecond after 1970, and the earlier one
   before 1970 and further into its own millisecond: borrowing a millisecond then crosses zero, where
   division no longer rounds down.
   */
  predicate BorrowsAcrossZero(later: int, earlier: int) {
    0 < later < MICROS_PER_MSEC && earlier < 0 && earlier % MICROS_PER_MSEC > later
  }

  /** What the difference of two timestamps comes to: exact, but for a millisecond in that one case. */
  function Elapsed(end: int, start: int): int {
    end - start + if BorrowsAcrossZero(end, start) then MICROS_PER_MSEC
                  else if BorrowsAcrossZero(start, end) then -MICROS_PER_MSEC else 0
  }

  /** The whole days between two timestamps, each rounded to the millisecond in its own way. */
  function WholeDays(end: int, start: int): int {
    Quot(Quot(Borrowed(end, start % MICROS_PER_MSEC).0, MICROS_PER_MSEC) - Floor(start, MICROS_PER_MSEC), MSECS_PER_DAY)
  }

  function DifferenceFrom(end: int, start: int): Interval {
    Interval(0, WholeDays(end, start), Elapsed(end, start) - WholeDays(end, start) * MICROS_PER_DAY)
  }

  /** One timestamp minus another, as whole days and the rest; an earlier one minus a later one is negated. */
  function Difference(end: int, start: int): (i: Interval)
    ensures i.months == 0 && Length(i) == Elapsed(end, start)
  {
    if start > end then Negated(DifferenceFrom(start, end)) else DifferenceFrom(end, start)
  }

  /** `ICUCalendarSub::Operation` of two timestamps. */
  method CalendarSub(endDate: Timestamp, startDate: Timestamp, calendar: Calendar) returns (r: Result<Interval, TimeError>)
    modifies calendar`millis
    ensures r == if IsFinite(endDate) && IsFinite(startDate) then Ok(Difference(endDate, startDate)) else Err(Infinite)
    ensures r.Ok? ==> -MICROS_PER_DAY < r.value.micros < MICROS_PER_DAY && Fits32(r.value.days)
    decreases if startDate > endDate then 1 else 0
  {
    hide WholeDays;
    if !IsFinite(endDate) || !IsFinite(startDate) {
      return Err(Infinite);
    }
    if startDate > endDate {
      var negated := CalendarSub(startDate, endDate, calendar);
      return Ok(Interval(-negated.value.months, -negated.value.days, -negated.value.micros));
    }
    var i := SubtractOrdered(endDate, startDate, calendar);
    r := Ok(i);
  }

  method SubtractOrdered(endDate: Timestamp, startDate: Timestamp, calendar: Calendar) returns (i: Interval)
    requires startDate <= endDate
    modifies calendar`millis
    ensures i == DifferenceFrom(endDate, startDate)
    ensures -MICROS_PER_DAY < i.micros < MICROS_PER_DAY && Fits32(i.days)
  {
    hide Quot, Borrowed, Elapsed, ToSigned64, ToUnsigned, ToSigned32;
    var startMicros := calendar.SetTime(startDate);
    var end, endMicros := BorrowMillis(endDate, startDate, startMicros);
    assert startMicros == startDate % MICROS_PER_MSEC && calendar.millis == Floor(startDate, MICROS_PER_MSEC);
    BorrowIsExact(endDate, startDate, calendar.millis, startMicros);
    ElapsedIsShort(endDate, startDate);
    var days, hours, minutes, seconds, millis := SubtractFields(end, calendar);
    assert days == WholeDays(endDate, startDate);
    hide WholeDays;
    var micros := ToSigned32(ToUnsigned(millis * MICROS_PER_MSEC + ToUnsigned(endMicros - startMicros)));
    CastsKeepMicros(millis, endMicros - startMicros);
    i := Interval(0, days, FromTime(hours, minutes, seconds, micros));
  }

  lemma ElapsedIsShort(end: Timestamp, start: Timestamp)
    ensures Elapsed(end, start) <= 0x1_0000_0000_0000_0000
  {
  }

  /** The difference field by field, from the days on. */
  method SubtractFields(end: int, calendar: Calendar)
    returns (days: int, hours: int, minutes: int, seconds: int, millis: int)
    requires 0 <= Quot(end, MICROS_PER_MSEC) - calendar.millis < 0x7FFF_FFFF * MSECS_PER_DAY
    modifies calendar`millis
    ensures Quot(end, MICROS_PER_MSEC) - old(calendar.millis)
            == days * MSECS_PER_DAY + hours * 3_600_000 + minutes * 60_000 + seconds * 1000 + millis
    ensures days == Quot(Quot(end, MICROS_PER_MSEC) - old(calendar.millis), MSECS_PER_DAY)
    ensures Fits32(days) && 0 <= hours < 24 && 0 <= minutes < 60 && 0 <= seconds < 60 && 0 <= millis < 1000
  {
    hide Quot;
    days := calendar.SubtractField(DATE, end);
    hours := calendar.SubtractField(HOUR, end);
    minutes := calendar.SubtractField(MINUTE, end);
    seconds := calendar.SubtractField(SECOND, end);
    millis := calendar.SubtractField(MILLISECOND, end);
  }

  /** The sum of milliseconds and microseconds goes through unsigned and 32-bit numbers unharmed. */
  lemma CastsKeepMicros(millis: int, micros: int)
    requires 0 <= millis < 1000 && -2000 < ToSigned64(ToUnsigned(micros)) < 1000
    ensures ToSigned32(ToUnsigned(millis * MICROS_PER_MSEC + ToUnsigned(micros)))
            == millis * MICROS_PER_MSEC + ToSigned64(ToUnsigned(micros))
  {
    var u, x := ToUnsigned(micros), ToSigned64(ToUnsigned(micros));
    assert u == if x >= 0 then x else x + 0x1_0000_0000_0000_0000;
    hide ToSigned64;
    var sum := millis * MICROS_PER_MSEC + x;
    assert ToUnsigned(millis * MICROS_PER_MSEC + u) == if sum >= 0 then sum else sum + 0x1_0000_0000_0000_0000;
    hide ToUnsigned;
    LowBits(sum);
  }

  lemma LowBits(v: int)
    requires Fits32(v)
    ensures ToSigned32(v) == v && ToSigned32(v + 0x1_0000_0000_0000_0000) == v
  {
  }

  /** `Time::FromTime`. */
  function FromTime(hour: int, minute: int, second: int, micros: int): int {
    ((hour * 60 + minute) * 60 + second) * 1_000_000 + micros
  }

  /** Borrows a millisecond from the end if its microseconds, as an unsigned number, are fewer. */
  method BorrowMillis(endDate: int, startDate: int, startMicros: int) returns (end: int, endMicros: int)
    requires Fits64(endDate)
    ensures (end, endMicros) == Borrowed(endDate, startMicros)
  {
    end, endMicros := endDate, ToUnsigned(Rem(endDate, MICROS_PER_MSEC));
    if startMicros > endMicros {
      end := end - MICROS_PER_MSEC;
      endMicros := ToUnsigned(endMicros + MICROS_PER_MSEC);
    }
  }

  function Borrowed(endDate: int, startMicros: int): (int, int) {
    var endMicros := ToUnsigned(Rem(endDate, MICROS_PER_MSEC));
    if startMicros > endMicros then (endDate - MICROS_PER_MSEC, ToUnsigned(endMicros + MICROS_PER_MSEC))
    else (endDate, endMicros)
  }

  /** The borrowing keeps the difference, but for the one case. */
  lemma BorrowIsExact(endDate: int, startDate: int, startMillis: int, startMicros: int)
    requires startDate <= endDate && Fits64(startDate) && Fits64(endDate)
    requires startDate == startMillis * MICROS_PER_MSEC + startMicros && 0 <= startMicros < MICROS_PER_MSEC
    ensures var (end, endMicros) := Borrowed(endDate, startMicros);
            var millis, micros := Quot(end, MICROS_PER_MSEC) - startMillis, ToSigned64(ToUnsigned(endMicros - startMicros));
            && millis >= 0 && -2000 < micros < 1000
            && millis * MICROS_PER_MSEC + micros == Elapsed(endDate, startDate)
  {
    BorrowedParts(endDate, startMicros);
    if Rem(endDate, MICROS_PER_MSEC) >= 0 {
      QuotientAfterBorrow(endDate);
    }
    assert startMicros == startDate % MICROS_PER_MSEC;
    hide Quot, ToSigned64, ToUnsigned, Borrowed;
  }

  lemma BorrowedParts(endDate: int, startMicros: int)
    requires 0 <= startMicros < MICROS_PER_MSEC
    ensures var rest, (end, endMicros) := Rem(endDate, MICROS_PER_MSEC), Borrowed(endDate, startMicros);
            var difference := ToSigned64(ToUnsigned(endMicros - startMicros));
            if rest < 0 || rest >= startMicros then end == endDate && difference == rest - startMicros
            else end == endDate - MICROS_PER_MSEC && difference == rest + MICROS_PER_MSEC - startMicros
  {
    hide Quot, ToSigned64;
    var rest := Rem(endDate, MICROS_PER_MSEC);
    if rest < 0 {
      BorrowNothing(rest, startMicros);
    } else {
      SmallDifference(rest - startMicros);
      SmallDifference(rest + MICROS_PER_MSEC - startMicros);
      assert ToUnsigned(rest) == rest && ToUnsigned(rest + MICROS_PER_MSEC) == rest + MICROS_PER_MSEC;
    }
  }

  /** Borrowing lowers the quotient by one, but within the first millisecond it stays at zero. */
  lemma QuotientAfterBorrow(endDate: int)
    requires Rem(endDate, MICROS_PER_MSEC) >= 0
    ensures var q, q' := Quot(endDate, MICROS_PER_MSEC), Quot(endDate - MICROS_PER_MSEC, MICROS_PER_MSEC);
            if 0 < endDate < MICROS_PER_MSEC then q' == q == 0 else q' == q - 1
  {
    var q, q' := Quot(endDate, MICROS_PER_MSEC), Quot(endDate - MICROS_PER_MSEC, MICROS_PER_MSEC);
    hide Quot;
    assert endDate <= 0 ==> endDate == q * MICROS_PER_MSEC;
  }

  lemma SmallDifference(v: int)
    requires Fits32(v)
    ensures ToSigned64(ToUnsigned(v)) == v
  {
  }

  /** A negative remainder is a large unsigned number: nothing is borrowed, and the difference wraps back. */
  lemma BorrowNothing(rest: int, startMicros: int)
    requires -MICROS_PER_MSEC < rest < 0 && 0 <= startMicros < MICROS_PER_MSEC
    ensures startMicros <= ToUnsigned(rest)
    ensures ToSigned64(ToUnsigned(ToUnsigned(rest) - startMicros)) == rest - startMicros
  {
    assert ToUnsigned(rest) == rest + 0x1_0000_0000_0000_0000;
  }

  /**
   Adding the difference of two timestamps to the second one leads to the first one exactly when no
   millisecond was borrowed across zero and the addition stays in range.
   */
  lemma DifferenceLeadsBack(addMonths: MonthAdder, end: Timestamp, start: Timestamp)
    requires NoMonthsIsNeutral(addMonths) && IsFinite(start)
    ensures var i := Difference(end, start);
            Added(addMonths, start, i) == Ok(end)
            <==> !BorrowsAcrossZero(end, start) && !BorrowsAcrossZero(start, end) && CanAdd(start, i)
  {
    hide CanAdd, Added, Difference;
    AddIsExact(addMonths, start, Difference(end, start));
  }

  /** From one microsecond before 1970 to five after it: one millisecond too much. */
  lemma DifferenceAcrossZero()
    ensures Difference(5, -1) == Interval(0, 0, 1006)
  {
  }

  /**
   From the first timestamp to one microsecond before the next midnight: one day less a microsecond,
   which is taken from the first timestamp before the day is added.
   */
  lemma DifferenceCannotBeAdded(addMonths: MonthAdder)
    requires NoMonthsIsNeutral(addMonths)
    ensures var start := MIN_TIMESTAMP;
            var end := start + MICROS_PER_DAY - 1;
            && InRange(start) && InRange(end) && Difference(end, start) == Interval(0, 1, -1)
            && Added(addMonths, start, Difference(end, start)) == Err(OutOfRange)
  {
    var start := MIN_TIMESTAMP;
    AddIsExact(addMonths, start, Interval(0, 1, -1));
  }
}
