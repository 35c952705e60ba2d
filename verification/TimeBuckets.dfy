/**
 Time buckets (extension/icu/icu-timebucket.cpp, with the day difference of extension/icu/icu-datesub.cpp).

 A bucket of a given width is the latest multiple of the width, counted from an origin, that is not
 after the timestamp. The code finds it with divisions that round toward zero.
 */
module TimeBuckets {
  import opened Wrappers
  import opened Timestamps
  import opened Calendars

  const DEFAULT_ORIGIN: Timestamp := 10959 * MICROS_PER_DAY

  /** The bucket of `width` that contains the timestamp. */
  ghost predicate IsBucketOf(bucket: int, width: int, ts: int, origin: int)
    requires width > 0
  {
    bucket <= ts < bucket + width && (bucket - origin) % width == 0
  }

  /** There is one such bucket: where `ts` is rounded down. */
  function BucketStart(width: int, ts: int, origin: int): (b: int)
    requires width > 0
    ensures IsBucketOf(b, width, ts, origin)
  {
    var b := origin + Floor(ts - origin, width) * width;
    MultipleOf(Floor(ts - origin, width), width);
    b
  }

  lemma MultipleIsLarge(k: int, width: int)
    requires width > 0
    ensures k >= 1 ==> k * width >= width
    ensures k <= -1 ==> k * width <= -width
  {
    if k >= 1 {
      ProductIsNonNegative(k - 1, width);
      DifferenceOfMultiples(k, 1, width);
    } else if k <= -1 {
      ProductIsNonNegative(-1 - k, width);
      DifferenceOfMultiples(-1, k, width);
    }
  }

  lemma ProductIsNonNegative(a: nat, b: nat)
    ensures a * b >= 0
  {
  }

  lemma DifferenceOfMultiples(k: int, l: int, width: int)
    ensures (k - l) * width == k * width - l * width
  {
  }

  lemma MultipleOf(k: int, width: int)
    requires width > 0
    ensures (k * width) % width == 0
  {
    var n := k * width;
    var q, r := n / width, n % width;
    assert n == q * width + r && 0 <= r < width;
    DifferenceOfMultiples(k, q, width);
    MultipleIsLarge(k - q, width);
  }

  lemma QuotientOfMultiple(n: int, width: int)
    requires width > 0 && n % width == 0
    ensures n == n / width * width
  {
  }

  /** Two multiples of the width that lie less than a width apart are the same. */
  lemma BucketIsUnique(width: int, ts: int, origin: int, b: int, c: int)
    requires width > 0 && IsBucketOf(b, width, ts, origin) && IsBucketOf(c, width, ts, origin)
    ensures b == c
  {
    var k, l := (b - origin) / width, (c - origin) / width;
    QuotientOfMultiple(b - origin, width);
    QuotientOfMultiple(c - origin, width);
    DifferenceOfMultiples(k, l, width);
    MultipleIsLarge(k - l, width);
  }

  /** Buckets keep the order of timestamps, and each is the bucket of its own start. */
  lemma BucketsAreMonotone(width: int, origin: int, ts: int, ts': int, b: int, b': int)
    requires width > 0 && IsBucketOf(b, width, ts, origin) && IsBucketOf(b', width, ts', origin)
    ensures ts <= ts' ==> b <= b'
    ensures IsBucketOf(b, width, b, origin)
  {
    if ts <= ts' && b' < b {
      assert b' <= b <= ts' < b' + width;
      assert IsBucketOf(b, width, ts', origin);
      BucketIsUnique(width, ts', origin, b, b');
    }
  }

  // ---------------------------------------------------------------- microseconds

  /** The microsecond bucket as a result: the bucket, or an overflow on the way. */
  function MicrosBucket(width: int, ts: int, origin: int): Result<Timestamp, TimeError>
    requires width > 0
  {
    var b := BucketStart(width, ts, origin);
    if Fits64(ts - origin) && Fits64(b - origin) && InRange(b) then Ok(b) else Err(OutOfRange)
  }

  /** `WidthConvertibleToMicrosCommon`: division toward zero, and one bucket less below the origin. */
  method WidthConvertibleToMicros(width: int, ts: Timestamp, origin: Timestamp, calendar: Calendar)
    returns (r: Result<Timestamp, TimeError>)
    requires width >= 0 && InRange(origin) && IsFinite(origin) && NoMonthsIsNeutral(calendar.addMonths)
    modifies calendar`millis
    ensures r == if width == 0 then Err(ZeroWidth) else MicrosBucket(width, ts, origin)
  {
    hide InRange;
    if width == 0 {
      return Err(ZeroWidth);
    }
    var micros := ts - origin;
    if !Fits64(micros) {
      return Err(OutOfRange);
    }
    var result := Quot(micros, width) * width;
    TruncatedIsFloor(micros, width);
    if micros < 0 && Rem(micros, width) != 0 {
      if !Fits64(result - width) {
        return Err(OutOfRange);
      }
      result := result - width;
    }
    AddOneKindIsExact(calendar.addMonths, origin, Interval(0, 0, result));
    r := CalendarAdd(origin, Interval(0, 0, result), calendar);
  }

  lemma TruncatedIsFloor(a: int, width: int)
    requires width > 0
    ensures Floor(a, width) * width
            == Quot(a, width) * width - if a < 0 && Rem(a, width) != 0 then width else 0
    ensures Fits64(a) ==> Fits64(Quot(a, width) * width)
  {
    var f, q := Floor(a, width), Quot(a, width);
    DifferenceOfMultiples(f, q, width);
    MultipleIsLarge(f - q, width);
    DifferenceOfMultiples(f + 1, q, width);
    DifferenceOfMultiples(f + 1, 1, width);
    MultipleIsLarge(f + 1 - q, width);
  }

  /** A bucket's start is in that bucket. */
  lemma MicrosBucketIsIdempotent(width: int, ts: int, origin: int)
    requires width > 0 && Fits64(ts - origin)
    ensures var b := BucketStart(width, ts, origin);
            Fits64(b - origin) && InRange(b)
            ==> MicrosBucket(width, ts, origin) == Ok(b) && MicrosBucket(width, b, origin) == Ok(b)
  {
    hide InRange, BucketStart;
    var b := BucketStart(width, ts, origin);
    BucketsAreMonotone(width, origin, ts, ts, b, b);
    BucketIsUnique(width, b, origin, b, BucketStart(width, b, origin));
  }

  // ---------------------------------------------------------------- days

  /** The days from the origin to the timestamp, each rounded to the millisecond in its own way. */
  function DaysBetween(ts: int, origin: int): int {
    Quot(Quot(ts, MICROS_PER_MSEC) - Floor(origin, MICROS_PER_MSEC), MSECS_PER_DAY)
  }

  /** The first guess at the bucket, in days from the origin. */
  function GuessedDays(days: int, ts: int, origin: int): int
    requires days > 0
  {
    Quot(DaysBetween(ts, origin), days) * days
  }

  /** The day bucket as a result: the guess, or the bucket before it when the guess is after the timestamp. */
  function DayBucket(days: int, ts: int, origin: int): Result<Timestamp, TimeError>
    requires days > 0
  {
    var guess := origin + GuessedDays(days, ts, origin) * MICROS_PER_DAY;
    var b := if ts < guess then guess - days * MICROS_PER_DAY else guess;
    if Fits32(GuessedDays(days, ts, origin)) && InRange(guess) && InRange(b) then Ok(b) else Err(OutOfRange)
  }

  /** `SubtractDay`. */
  method SubtractDays(ts: Timestamp, origin: Timestamp, calendar: Calendar) returns (n: int)
    modifies calendar`millis
    ensures n == DaysBetween(ts, origin)
  {
    hide Quot;
    var _ := calendar.SetTime(origin);
    n := calendar.SubtractField(DATE, ts);
  }

  /** `WidthConvertibleToDaysCommon`. */
  method WidthConvertibleToDays(days: int, ts: Timestamp, origin: Timestamp, calendar: Calendar)
    returns (r: Result<Timestamp, TimeError>)
    requires 0 <= days && Fits32(days) && InRange(origin) && IsFinite(origin) && NoMonthsIsNeutral(calendar.addMonths)
    modifies calendar`millis
    ensures r == if days == 0 then Err(ZeroWidth) else DayBucket(days, ts, origin)
  {
    hide InRange, DaysBetween, NoMonthsIsNeutral, Added;
    if days == 0 {
      return Err(ZeroWidth);
    }
    var tsDays := SubtractDays(ts, origin, calendar);
    var resultDays := Quot(tsDays, days) * days;
    if !Fits32(resultDays) {
      return Err(OutOfRange);
    }
    AddOneKindIsExact(calendar.addMonths, origin, Interval(0, resultDays, 0));
    r := CalendarAdd(origin, Interval(0, resultDays, 0), calendar);
    if r.Ok? && ts < r.value {
      InRangeIsFinite(r.value);
      AddOneKindIsExact(calendar.addMonths, r.value, Interval(0, -days, 0));
      r := CalendarAdd(r.value, Interval(0, -days, 0), calendar);
    }
  }

  lemma InRangeIsFinite(t: Timestamp)
    ensures InRange(t) ==> IsFinite(t)
  {
  }

  /**
   The next bucket after the timestamp's begins within the same millisecond, and both lie before 1970
   and before the origin.
   */
  predicate NextIsTooClose(width: int, ts: int, origin: int)
    requires width > 0
  {
    var next := BucketStart(width, ts, origin) + width;
    ts < 0 && ts % MICROS_PER_MSEC != 0 && next < origin && next < ts - ts % MICROS_PER_MSEC + MICROS_PER_MSEC
  }

  /** Where the guess lies: within a width of the distance in milliseconds, on the side of the origin. */
  lemma GuessIsNear(days: int, ts: int, origin: int)
    requires days > 0
    ensures var millis := Quot(ts, MICROS_PER_MSEC) - Floor(origin, MICROS_PER_MSEC);
            var g := GuessedDays(days, ts, origin);
            && (millis >= 0 ==> g * MSECS_PER_DAY <= millis < (g + days) * MSECS_PER_DAY)
            && (millis <= 0 ==> (g - days) * MSECS_PER_DAY < millis <= g * MSECS_PER_DAY)
  {
    var n := DaysBetween(ts, origin);
    var g := Quot(n, days) * days;
    assert n >= 0 ==> g <= n < g + days;
    assert n <= 0 ==> g - days < n <= g;
    hide Quot, GuessedDays;
    assert g == GuessedDays(days, ts, origin);
  }

  function Guess(days: int, ts: int, origin: int): int
    requires days > 0
  {
    origin + GuessedDays(days, ts, origin) * MICROS_PER_DAY
  }

  /** The guess after the correction. */
  function Chosen(days: int, ts: int, origin: int): int
    requires days > 0
  {
    if ts < Guess(days, ts, origin) then Guess(days, ts, origin) - days * MICROS_PER_DAY else Guess(days, ts, origin)
  }

  /** The guess is a whole number of widths from the origin. */
  lemma GuessIsMultiple(days: int, ts: int, origin: int)
    requires days > 0
    ensures (Guess(days, ts, origin) - origin) % (days * MICROS_PER_DAY) == 0
    ensures (Chosen(days, ts, origin) - origin) % (days * MICROS_PER_DAY) == 0
  {
    var q := Quot(DaysBetween(ts, origin), days);
    var width := days * MICROS_PER_DAY;
    hide Quot;
    assert (q * days) * MICROS_PER_DAY == q * width;
    MultipleOf(q, width);
    MultipleOf(q - 1, width);
    DifferenceOfMultiples(q, 1, width);
  }

  /** The choice may be after the timestamp only where the next bucket is too close. */
  lemma ChoiceIsNear(days: int, ts: int, origin: int)
    requires days > 0
    ensures var b := Chosen(days, ts, origin);
            && b - days * MICROS_PER_DAY <= ts < b + days * MICROS_PER_DAY
            && (ts < b ==> ts < 0 && ts % MICROS_PER_MSEC != 0 && b < origin
                           && b < ts - ts % MICROS_PER_MSEC + MICROS_PER_MSEC)
  {
    GuessIsNear(days, ts, origin);
    var g, q, o := GuessedDays(days, ts, origin), Quot(ts, MICROS_PER_MSEC), Floor(origin, MICROS_PER_MSEC);
    hide Quot, GuessedDays;
  }

  lemma DaysFromOrigin(days: int, b: int, origin: int) returns (n: int)
    requires days > 0 && (b - origin) % (days * MICROS_PER_DAY) == 0
    ensures b == origin + n * MICROS_PER_DAY
  {
    var width := days * MICROS_PER_DAY;
    QuotientOfMultiple(b - origin, width);
    var k := (b - origin) / width;
    n := k * days;
    assert k * (days * MICROS_PER_DAY) == n * MICROS_PER_DAY;
  }

  /** Where the next bucket is too close, the guess goes past it. */
  lemma TooCloseIsPassed(days: int, ts: int, origin: int)
    requires days > 0 && NextIsTooClose(days * MICROS_PER_DAY, ts, origin)
    ensures Guess(days, ts, origin) > BucketStart(days * MICROS_PER_DAY, ts, origin) + days * MICROS_PER_DAY
  {
    var width := days * MICROS_PER_DAY;
    var b := BucketStart(width, ts, origin);
    GuessIsNear(days, ts, origin);
    var n := DaysFromOrigin(days, b, origin);
    MillisecondAfter(ts);
    var q, o := Quot(ts, MICROS_PER_MSEC), Floor(origin, MICROS_PER_MSEC);
    hide Quot, GuessedDays, BucketStart;
    assert b + width == origin + (n + days) * MICROS_PER_DAY;
    MoreDays(n + days, q, o, origin);
  }

  /** Before 1970, division toward zero leads to the next whole millisecond. */
  lemma MillisecondAfter(ts: int)
    requires ts < 0 && ts % MICROS_PER_MSEC != 0
    ensures Quot(ts, MICROS_PER_MSEC) * MICROS_PER_MSEC == ts - ts % MICROS_PER_MSEC + MICROS_PER_MSEC
  {
    assert ts == ts / MICROS_PER_MSEC * MICROS_PER_MSEC + ts % MICROS_PER_MSEC;
  }

  /** A time `k` days before the origin, and the millisecond `q` right after it. */
  lemma MoreDays(k: int, q: int, o: int, origin: int)
    requires o * MICROS_PER_MSEC <= origin < o * MICROS_PER_MSEC + MICROS_PER_MSEC && k < 0
    requires origin + k * MICROS_PER_DAY < q * MICROS_PER_MSEC < origin + k * MICROS_PER_DAY + MICROS_PER_MSEC
    ensures k * MSECS_PER_DAY < q - o < 0
  {
  }

  /** The choice is the bucket, or the next one if that is too close. */
  lemma ChosenIsBucket(days: int, ts: int, origin: int)
    requires days > 0
    ensures var width, r := days * MICROS_PER_DAY, Chosen(days, ts, origin);
            && (IsBucketOf(r, width, ts, origin) <==> !NextIsTooClose(width, ts, origin))
            && r == BucketStart(width, ts, origin) + if NextIsTooClose(width, ts, origin) then width else 0
  {
    var width := days * MICROS_PER_DAY;
    hide BucketStart, GuessedDays;
    ChoiceIsNear(days, ts, origin);
    GuessIsMultiple(days, ts, origin);
    BucketOrNext(width, ts, origin, Chosen(days, ts, origin));
    if NextIsTooClose(width, ts, origin) {
      TooCloseIsPassed(days, ts, origin);
    }
  }

  /**
   A day bucket contains its timestamp exactly when the next bucket is not too close; otherwise the
   result is that next bucket. There is one exactly when it and the guess are in range.
   */
  lemma DayBucketContains(days: int, ts: int, origin: int)
    requires days > 0 && InRange(origin)
    ensures var width := days * MICROS_PER_DAY;
            var r := BucketStart(width, ts, origin) + if NextIsTooClose(width, ts, origin) then width else 0;
            && DayBucket(days, ts, origin) == (if InRange(Guess(days, ts, origin)) && InRange(r) then Ok(r) else Err(OutOfRange))
            && (IsBucketOf(r, width, ts, origin) <==> !NextIsTooClose(width, ts, origin))
  {
    hide InRange, DateOf, GuessedDays, BucketStart, NextIsTooClose;
    ChosenIsBucket(days, ts, origin);
    RangeOfTimestamps(origin);
    RangeOfTimestamps(Guess(days, ts, origin));
  }

  /** A multiple of the width near the timestamp is its bucket or the next one. */
  lemma BucketOrNext(width: int, ts: int, origin: int, r: int)
    requires width > 0 && (r - origin) % width == 0 && r - width <= ts < r + width
    ensures r == BucketStart(width, ts, origin) + if ts < r then width else 0
    ensures IsBucketOf(r, width, ts, origin) <==> r <= ts
  {
    var b := BucketStart(width, ts, origin);
    hide BucketStart;
    if ts < r {
      OneWidthBack(width, r - origin);
      BucketIsUnique(width, ts, origin, b, r - width);
    } else {
      BucketIsUnique(width, ts, origin, b, r);
    }
  }

  lemma OneWidthBack(width: int, n: int)
    requires width > 0 && n % width == 0
    ensures (n - width) % width == 0
  {
    QuotientOfMultiple(n, width);
    DifferenceOfMultiples(n / width, 1, width);
    MultipleOf(n / width - 1, width);
  }

  /** With an origin that is a whole millisecond, as the default origin is, every day bucket contains its timestamp. */
  lemma WholeMillisecondOrigin(days: int, ts: int, origin: int)
    requires days > 0 && origin % MICROS_PER_MSEC == 0
    ensures !NextIsTooClose(days * MICROS_PER_DAY, ts, origin)
  {
    var width := days * MICROS_PER_DAY;
    var b := BucketStart(width, ts, origin);
    var n := DaysFromOrigin(days, b, origin);
    hide BucketStart, IsBucketOf;
    WholeDaysOn(origin, n + days);
    assert b + width == origin + (n + days) * MICROS_PER_DAY;
    NextMillisecond(b + width, ts);
  }

  lemma WholeDaysOn(origin: int, days: int)
    requires origin % MICROS_PER_MSEC == 0
    ensures (origin + days * MICROS_PER_DAY) % MICROS_PER_MSEC == 0
  {
    var o := origin / MICROS_PER_MSEC;
    assert origin + days * MICROS_PER_DAY == (o + days * MSECS_PER_DAY) * MICROS_PER_MSEC;
  }

  /** A whole millisecond after the timestamp is no earlier than the next one. */
  lemma NextMillisecond(t: int, ts: int)
    requires t % MICROS_PER_MSEC == 0 && ts < t
    ensures ts - ts % MICROS_PER_MSEC + MICROS_PER_MSEC <= t
  {
  }

  /** From an origin that is a whole millisecond after 1970, the guess is never past both the timestamp and the origin. */
  lemma GuessIsNotPast(days: int, ts: int, origin: int)
    requires days > 0 && origin >= 0 && origin % MICROS_PER_MSEC == 0
    ensures Guess(days, ts, origin) <= if ts < origin then origin else ts
  {
    GuessIsNear(days, ts, origin);
    var q, o := Quot(ts, MICROS_PER_MSEC), Floor(origin, MICROS_PER_MSEC);
    hide Quot, GuessedDays;
  }

  /** From such an origin a day bucket is found whenever it is a timestamp. */
  lemma DayBucketSucceeds(days: int, ts: Timestamp, origin: Timestamp)
    requires days > 0 && IsFinite(ts) && 0 <= origin < INFINITY && origin % MICROS_PER_MSEC == 0
    ensures var b := BucketStart(days * MICROS_PER_DAY, ts, origin);
            DayBucket(days, ts, origin) == if InRange(b) then Ok(b) else Err(OutOfRange)
  {
    var width := days * MICROS_PER_DAY;
    var b, guess := Chosen(days, ts, origin), Guess(days, ts, origin);
    hide InRange, DateOf, GuessedDays, BucketStart;
    WholeMillisecondOrigin(days, ts, origin);
    ChosenIsBucket(days, ts, origin);
    GuessIsNotPast(days, ts, origin);
    RangeOfTimestamps(b);
    RangeOfTimestamps(guess);
  }

  /** An origin 999 microseconds after 1970: the bucket of this timestamp begins after it. */
  lemma BucketAfterItsTimestamp()
    ensures var ts := 500 - MICROS_PER_DAY; DayBucket(1, ts, 999) == Ok(999 - MICROS_PER_DAY) && 999 - MICROS_PER_DAY > ts
  {
  }

  // ---------------------------------------------------------------- time_bucket

  datatype BucketWidthType = CONVERTIBLE_TO_MICROS | CONVERTIBLE_TO_DAYS | CONVERTIBLE_TO_MONTHS | UNCLASSIFIED

  /** How a width that is the same for all rows is classified. */
  function ClassifyBucketWidth(w: Interval): BucketWidthType {
    if w.months == 0 && w.days == 0 && w.micros > 0 then CONVERTIBLE_TO_MICROS
    else if w.months == 0 && w.days >= 0 && w.micros == 0 then CONVERTIBLE_TO_DAYS
    else if w.months > 0 && w.days == 0 && w.micros == 0 then CONVERTIBLE_TO_MONTHS
    else UNCLASSIFIED
  }

  /** How a width is classified row by row. */
  function ClassifyBucketWidthErrorThrow(w: Interval): Result<BucketWidthType, TimeError> {
    if w.months == 0 && w.days == 0 then
      if w.micros <= 0 then Err(PeriodNotPositive) else Ok(CONVERTIBLE_TO_MICROS)
    else if w.months == 0 && w.micros == 0 then
      if w.days <= 0 then Err(PeriodNotPositive) else Ok(CONVERTIBLE_TO_DAYS)
    else if w.days == 0 && w.micros == 0 then
      if w.months <= 0 then Err(PeriodNotPositive) else Ok(CONVERTIBLE_TO_MONTHS)
    else if w.months == 0 then Err(DaysWithTime)
    else Err(MonthsWithDaysOrTime)
  }

  type MonthBuckets = (int, Timestamp) -> Result<Timestamp, TimeError>

  /** The bucket of a timestamp for a width of a known kind, from the default origins. */
  function BucketOf(kind: BucketWidthType, w: Interval, ts: Timestamp, months: MonthBuckets): Result<Timestamp, TimeError>
    requires kind != UNCLASSIFIED && w.days >= 0 && (kind == CONVERTIBLE_TO_MICROS ==> w.micros > 0)
  {
    if !IsFinite(ts) then Ok(ts) else
    match kind
    case CONVERTIBLE_TO_MICROS => MicrosBucket(w.micros, ts, DEFAULT_ORIGIN)
    case CONVERTIBLE_TO_DAYS => if w.days == 0 then Err(ZeroWidth) else DayBucket(w.days, ts, DEFAULT_ORIGIN)
    case CONVERTIBLE_TO_MONTHS => months(w.months, ts)
  }

  /** The bucket of a timestamp, or the error, for any width. */
  function TimeBucket(w: Interval, ts: Timestamp, months: MonthBuckets): Result<Timestamp, TimeError> {
    match ClassifyBucketWidthErrorThrow(w)
    case Err(e) => Err(e)
    case Ok(kind) => BucketOf(kind, w, ts, months)
  }

  /** The operators for the three kinds of width. */
  method Operation(kind: BucketWidthType, w: Interval, ts: Timestamp, calendar: Calendar, months: MonthBuckets)
    returns (r: Result<Timestamp, TimeError>)
    requires kind != UNCLASSIFIED && w.days >= 0 && (kind == CONVERTIBLE_TO_MICROS ==> w.micros > 0)
    requires IsInterval(w) && NoMonthsIsNeutral(calendar.addMonths)
    modifies calendar`millis
    ensures r == BucketOf(kind, w, ts, months)
  {
    hide MicrosBucket, DayBucket, NoMonthsIsNeutral;
    if !IsFinite(ts) {
      return Ok(ts);
    }
    match kind {
      case CONVERTIBLE_TO_MICROS => r := WidthConvertibleToMicros(w.micros, ts, DEFAULT_ORIGIN, calendar);
      case CONVERTIBLE_TO_DAYS => r := WidthConvertibleToDays(w.days, ts, DEFAULT_ORIGIN, calendar);
      case CONVERTIBLE_TO_MONTHS => r := months(w.months, ts);
    }
  }

  /** `BinaryOperator`, for a width that differs from row to row. */
  method BinaryOperator(w: Interval, ts: Timestamp, calendar: Calendar, months: MonthBuckets)
    returns (r: Result<Timestamp, TimeError>)
    requires IsInterval(w) && NoMonthsIsNeutral(calendar.addMonths)
    modifies calendar`millis
    ensures r == TimeBucket(w, ts, months)
  {
    hide BucketOf, NoMonthsIsNeutral;
    var kind := ClassifyBucketWidthErrorThrow(w);
    if kind.Err? {
      return Err(kind.error);
    }
    r := Operation(kind.value, w, ts, calendar, months);
  }

  /**
   A width that is the same for all rows gives the same results, except for the empty width: it is
   taken for a width of days, so that it fails later, and not at all on an infinite timestamp.
   */
  method ConstantWidth(w: Interval, ts: Timestamp, calendar: Calendar, months: MonthBuckets)
    returns (r: Result<Timestamp, TimeError>)
    requires IsInterval(w) && NoMonthsIsNeutral(calendar.addMonths)
    modifies calendar`millis
    ensures r == if w != Interval(0, 0, 0) then TimeBucket(w, ts, months)
                 else if IsFinite(ts) then Err(ZeroWidth) else Ok(ts)
  {
    hide MicrosBucket, DayBucket, NoMonthsIsNeutral;
    var kind := ClassifyBucketWidth(w);
    if kind == UNCLASSIFIED {
      r := BinaryOperator(w, ts, calendar, months);
    } else {
      r := Operation(kind, w, ts, calendar, months);
    }
  }

  /** A width of days alone, or of microseconds alone. */
  predicate IsWidth(w: Interval) {
    w.months == 0 && ((w.days > 0 && w.micros == 0) || (w.days == 0 && w.micros > 0))
  }

  /** The bucket that contains the timestamp, counted from the default origin. */
  function DefaultBucket(w: Interval, ts: int): (b: int)
    requires IsWidth(w)
    ensures IsBucketOf(b, Width(w), ts, DEFAULT_ORIGIN)
  {
    BucketStart(Width(w), ts, DEFAULT_ORIGIN)
  }

  function Width(w: Interval): (n: int)
    requires IsWidth(w)
    ensures n > 0
  {
    w.days * MICROS_PER_DAY + w.micros
  }

  /** The bucket is a timestamp; for microseconds its distance from the origin must fit as well. */
  predicate IsRepresentable(w: Interval, b: int) {
    InRange(b) && (w.days == 0 ==> Fits64(b - DEFAULT_ORIGIN))
  }

  /**
   The bucket of a finite timestamp is the one that contains it, whenever that can be represented; no
   width but days alone or microseconds alone has buckets.
   */
  lemma TimeBucketContains(w: Interval, ts: Timestamp, months: MonthBuckets)
    requires w.months == 0 && IsFinite(ts)
    ensures if IsWidth(w)
            then TimeBucket(w, ts, months)
                 == if IsRepresentable(w, DefaultBucket(w, ts)) then Ok(DefaultBucket(w, ts)) else Err(OutOfRange)
            else TimeBucket(w, ts, months).Err?
  {
    hide DayBucket, InRange, BucketStart;
    if w.days > 0 {
      DayBucketSucceeds(w.days, ts, DEFAULT_ORIGIN);
    }
  }

  /** Buckets of weeks begin on a Monday at midnight: 1970 began on a Thursday. */
  lemma WeeksBeginOnMonday(weeks: nat, ts: Timestamp, months: MonthBuckets)
    requires weeks > 0 && IsFinite(ts) && TimeBucket(Interval(0, 7 * weeks, 0), ts, months).Ok?
    ensures var b := TimeBucket(Interval(0, 7 * weeks, 0), ts, months).value;
            b % 86_400_000_000 == 0 && (b / 86_400_000_000 + 3) % 7 == 0
  {
    hide TimeBucket, InRange, BucketStart;
    var w := Interval(0, 7 * weeks, 0);
    TimeBucketContains(w, ts, months);
    var b := DefaultBucket(w, ts);
    var n := DaysFromOrigin(7 * weeks, b, DEFAULT_ORIGIN);
    QuotientOfMultiple(b - DEFAULT_ORIGIN, 7 * weeks * MICROS_PER_DAY);
    var k := (b - DEFAULT_ORIGIN) / (7 * weeks * MICROS_PER_DAY);
    var m := k * weeks;
    assert k * (7 * weeks * MICROS_PER_DAY) == m * 604_800_000_000;
    assert b == (10959 + 7 * m) * 86_400_000_000;
  }

  /** The week of the first day of 1970 began on 29 December 1969, and its hour at midnight. */
  lemma WeekOf1970(months: MonthBuckets)
    ensures TimeBucket(Interval(0, 7, 0), 0, months) == Ok(-3 * 86_400_000_000)
    ensures TimeBucket(Interval(0, 0, 3_600_000_000), 1, months) == Ok(0)
  {
  }

  /** Buckets keep the order of timestamps, and a timestamp after one that has a bucket has one. */
  lemma TimeBucketsAreMonotone(w: Interval, ts: Timestamp, ts': Timestamp, months: MonthBuckets)
    requires w.months == 0 && IsFinite(ts) && IsFinite(ts') && ts <= ts' && TimeBucket(w, ts, months).Ok?
    ensures TimeBucket(w, ts', months).Ok?
    ensures TimeBucket(w, ts, months).value <= TimeBucket(w, ts', months).value
  {
    hide TimeBucket, InRange, DateOf, DefaultBucket;
    TimeBucketContains(w, ts, months);
    TimeBucketContains(w, ts', months);
    var b, b' := DefaultBucket(w, ts), DefaultBucket(w, ts');
    BucketsAreMonotone(Width(w), DEFAULT_ORIGIN, ts, ts', b, b');
    RangeOfTimestamps(b);
    RangeOfTimestamps(b');
  }

  /** A bucket's start is in that bucket. */
  lemma TimeBucketIsIdempotent(w: Interval, ts: Timestamp, months: MonthBuckets)
    requires w.months == 0 && IsFinite(ts) && TimeBucket(w, ts, months).Ok?
    ensures var b := TimeBucket(w, ts, months).value; TimeBucket(w, b, months) == Ok(b)
  {
    hide TimeBucket, InRange, DefaultBucket;
    TimeBucketContains(w, ts, months);
    var b := DefaultBucket(w, ts);
    InRangeIsFinite(b);
    TimeBucketContains(w, b, months);
    BucketsAreMonotone(Width(w), DEFAULT_ORIGIN, ts, ts, b, b);
    BucketIsUnique(Width(w), b, DEFAULT_ORIGIN, b, DefaultBucket(w, b));
  }
}
