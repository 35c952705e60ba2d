/**
 Ranges of timestamps (extension/icu/icu-table-range.cpp and extension/icu/icu-list-range.cpp).

 The table function hands a range out in chunks and remembers where it was; the list function
 counts each range, then fills a list. The calendar's addition is a parameter: it gives the next
 timestamp, or raises.
 */
module Ranges {
  import opened Wrappers
  import opened Sequences
  import opened Timestamps
  import Calendars

  /** The arguments of one row; `None` is NULL. */
  datatype Row = Row(start: Option<Timestamp>, end: Option<Timestamp>, step: Option<Interval>)

  datatype RangeError = InfiniteBounds | ZeroInterval | MixedSigns | TooLong | AddFailed

  type Adder = (Timestamp, Interval) -> Option<Timestamp>

  const MAX_LIST_LENGTH: nat := 0xFFFF_FFFF

  predicate Positive(s: Interval) {
    s.months > 0 || s.days > 0 || s.micros > 0
  }

  predicate Negative(s: Interval) {
    s.months < 0 || s.days < 0 || s.micros < 0
  }

  /** All parts of the step point in the given direction. */
  predicate Toward(s: Interval, up: bool) {
    if up then Positive(s) && !Negative(s) else Negative(s) && !Positive(s)
  }

  /** Adding a step that points in one direction moves a finite timestamp in that direction. */
  ghost predicate Monotone(add: Adder) {
    forall t, s | IsFinite(t) && add(t, s).Some? ::
      (Toward(s, true) ==> add(t, s).value > t) && (Toward(s, false) ==> add(t, s).value < t)
  }

  /** Adding months moves the calendar in the direction of their number. */
  ghost predicate MonthsMove(addMonths: Calendars.MonthAdder) {
    forall m, n :: (n > 0 ==> addMonths(m, n) > m) && (n == 0 ==> addMonths(m, n) == m) && (n < 0 ==> addMonths(m, n) < m)
  }

  /** The calendar's addition is monotone: the carrying of parts never turns a step around. */
  lemma CalendarAdditionIsMonotone(addMonths: Calendars.MonthAdder)
    requires MonthsMove(addMonths)
    ensures Monotone((t, s) => match Calendars.Added(addMonths, t, s) case Ok(u) => Some(u) case Err(_) => None)
  {
    forall t, s | IsFinite(t) && Calendars.Added(addMonths, t, s).Ok?
      ensures Toward(s, true) ==> Calendars.Added(addMonths, t, s).value > t
      ensures Toward(s, false) ==> Calendars.Added(addMonths, t, s).value < t
    {
      StepMoves(addMonths, t, s);
    }
  }

  lemma StepMoves(addMonths: Calendars.MonthAdder, t: Timestamp, s: Interval)
    requires MonthsMove(addMonths) && IsFinite(t) && Calendars.Added(addMonths, t, s).Ok?
    ensures Toward(s, true) ==> Calendars.Added(addMonths, t, s).value > t
    ensures Toward(s, false) ==> Calendars.Added(addMonths, t, s).value < t
  {
    hide Calendars.InRange, Calendars.CarriedMillis, Calendars.CarriedMicros, Calendars.Quot, Calendars.Fits64;
  }

  // ---------------------------------------------------------------- one range

  datatype Params = Params(start: Timestamp, end: Timestamp, step: Interval, up: bool, inclusive: bool) {
    predicate Finished(t: Timestamp) {
      if up then if inclusive then t > end else t >= end
      else if inclusive then t < end else t <= end
    }

    /** The range can be followed from `t`. */
    predicate Runs(t: Timestamp) {
      Finished(t) || (IsFinite(t) && IsFinite(end) && Toward(step, up))
    }

    /** The start is already past the end. */
    predicate Backwards() {
      if up then start > end else start < end
    }
  }

  /** The values of a range, and whether the addition after the last of them raises. */
  datatype Run = Run(values: seq<Timestamp>, failed: bool) {
    /** How many additions succeeded. */
    function Additions(): int {
      if failed then |values| - 1 else |values|
    }
  }

  /** The range from `t` on. */
  function Follow(add: Adder, t: Timestamp, p: Params): (r: Run)
    requires Monotone(add) && p.Runs(t)
    ensures r.failed ==> r.values != []
    ensures r.values == [] <==> p.Finished(t)
    decreases if p.Finished(t) then 0 else if p.up then p.end - t + 1 else t - p.end + 1
  {
    if p.Finished(t) then Run([], false)
    else if add(t, p.step) == None then Run([t], true)
    else
      var rest := Follow(add, add(t, p.step).value, p);
      Run([t] + rest.values, rest.failed)
  }

  /**
   What a range is: it starts at the start, every value is the previous one plus the step and none is
   past the end, the values move strictly in one direction, and after the last one the end is passed.
   */
  lemma {:induction false} RangeIsComplete(add: Adder, t: Timestamp, p: Params, k: nat)
    requires Monotone(add) && p.Runs(t) && k < |Follow(add, t, p).values|
    ensures var r := Follow(add, t, p);
            var next := add(r.values[k], p.step);
            && r.values[0] == t && !p.Finished(r.values[k])
            && (next == None <==> k + 1 == |r.values| && r.failed)
            && (k + 1 < |r.values| ==> next == Some(r.values[k + 1])
                                       && if p.up then r.values[k] < r.values[k + 1] else r.values[k] > r.values[k + 1])
            && (k + 1 == |r.values| && !r.failed ==> p.Finished(next.value))
    decreases k
  {
    var r := Follow(add, t, p);
    if add(t, p.step).Some? {
      var u := add(t, p.step).value;
      var rest := Follow(add, u, p);
      assert r.values[1..] == rest.values;
      if k > 0 {
        RangeIsComplete(add, u, p, k - 1);
        assert r.values[k] == rest.values[k - 1];
      } else if rest.values != [] {
        assert rest.values[0] == u;
      }
    }
  }

  // ---------------------------------------------------------------- the rows

  predicate HasNull(row: Row) {
    row.start == None || row.end == None || row.step == None
  }

  /** What the table function makes of a row. A NULL argument makes a range without values. */
  function TableParams(row: Row, series: bool): (r: Result<Params, RangeError>)
    ensures r.Ok? ==> r.value.Runs(r.value.start)
  {
    if HasNull(row) then Ok(Params(0, 0, Interval(0, 0, 0), true, false))
    else if !IsFinite(row.start.value) || !IsFinite(row.end.value) then Err(InfiniteBounds)
    else if !Positive(row.step.value) && !Negative(row.step.value) then Err(ZeroInterval)
    else if Positive(row.step.value) && Negative(row.step.value) then Err(MixedSigns)
    else Ok(Params(row.start.value, row.end.value, row.step.value, Positive(row.step.value), series))
  }

  /** Values in the order in which they are produced, and the error that ends them. */
  datatype Stream = Stream(values: seq<Timestamp>, error: Option<RangeError>) {
    function After(run: Run): Stream {
      if run.failed then Stream(run.values, Some(AddFailed)) else Stream(run.values + values, error)
    }
  }

  /**
   What the table function produces for the rows from `i` on. `emptyRange` says that a row whose start
   is past its end has been seen: from then on every row counts as empty.
   */
  function TableStream(add: Adder, rows: seq<Row>, series: bool, i: nat, emptyRange: bool): Stream
    requires Monotone(add) && i <= |rows|
    decreases |rows| - i
  {
    if i == |rows| then Stream([], None) else
    match TableParams(rows[i], series)
    case Err(e) => Stream([], Some(e))
    case Ok(p) =>
      if emptyRange || p.Backwards() then TableStream(add, rows, series, i + 1, true)
      else TableStream(add, rows, series, i + 1, false).After(Follow(add, p.start, p))
  }

  /** The list that the list function makes of a row. */
  function ListOf(add: Adder, row: Row, series: bool): Result<seq<Timestamp>, RangeError>
    requires Monotone(add)
  {
    if HasNull(row) then Ok([]) else
    var (start, end, step) := (row.start.value, row.end.value, row.step.value);
    if !Positive(step) && !Negative(step) then Ok([])
    else if !IsFinite(start) || !IsFinite(end) then Err(InfiniteBounds)
    else if Positive(step) && Negative(step) then Err(MixedSigns)
    else
      var p := Params(start, end, step, Positive(step), series);
      if p.Backwards() then Ok([]) else
      var run := Follow(add, start, p);
      if run.Additions() > MAX_LIST_LENGTH then Err(TooLong)
      else if run.failed then Err(AddFailed)
      else Ok(run.values)
  }

  /** Behind the values `vs`, which began at `start`, the next one would be the end. */
  predicate ReachesEnd(add: Adder, start: Timestamp, end: Timestamp, step: Interval, vs: seq<Timestamp>) {
    if vs == [] then start == end else add(vs[|vs| - 1], step) == Some(end)
  }

  lemma {:induction false} InclusiveFollows(add: Adder, t: Timestamp, p: Params)
    requires Monotone(add) && !p.inclusive && p.Runs(t) && p.(inclusive := true).Runs(t) && !p.Backwards()
    ensures var r, r' := Follow(add, t, p), Follow(add, t, p.(inclusive := true));
            && p.end !in r.values
            && (!r.failed ==> r'.values == r.values + if ReachesEnd(add, t, p.end, p.step, r.values) then [p.end] else [])
            && (r.failed ==> r' == r)
    decreases if p.Finished(t) then 0 else if p.up then p.end - t + 1 else t - p.end + 1
  {
    if !p.Finished(t) && add(t, p.step).Some? {
      var u := add(t, p.step).value;
      InclusiveFollows(add, u, p);
      var rest := Follow(add, u, p);
      assert ([t] + rest.values)[|rest.values|] == if rest.values == [] then t else rest.values[|rest.values| - 1];
    } else if p.Finished(t) && t == p.end {
      EndIsAlone(add, t, p.(inclusive := true));
    }
  }

  /** Behind the end there is nothing. */
  lemma EndIsAlone(add: Adder, t: Timestamp, p: Params)
    requires Monotone(add) && p.inclusive && p.Runs(t) && t == p.end
    ensures Follow(add, t, p).values == [t]
  {
  }

  /**
   `range` never yields its end; `generate_series` yields the same values, and then the end exactly if
   the next step from the last of them, or the start, is the end.
   */
  lemma SeriesIncludesEnd(add: Adder, row: Row, range: seq<Timestamp>, series: seq<Timestamp>)
    requires Monotone(add) && ListOf(add, row, false) == Ok(range) && ListOf(add, row, true) == Ok(series)
    requires !HasNull(row) && (Positive(row.step.value) || Negative(row.step.value))
    ensures row.end.value !in range
    ensures series == range + if ReachesEnd(add, row.start.value, row.end.value, row.step.value, range) then [row.end.value] else []
  {
    hide Follow;
    var start, end, step := row.start.value, row.end.value, row.step.value;
    var p := Params(start, end, step, Positive(step), false);
    if !p.Backwards() {
      InclusiveFollows(add, start, p);
    }
  }

  /** The list function's child vector: the lists of the rows from `i` on, one after the other. */
  function ListsFrom(add: Adder, rows: seq<Row>, series: bool, i: nat): Result<seq<Timestamp>, RangeError>
    requires Monotone(add) && i <= |rows|
    decreases |rows| - i
  {
    if i == |rows| then Ok([]) else
    match ListOf(add, rows[i], series)
    case Err(e) => Err(e)
    case Ok(vs) =>
      match ListsFrom(add, rows, series, i + 1)
      case Err(e) => Err(e)
      case Ok(rest) => Ok(vs + rest)
  }

  // ---------------------------------------------------------------- streaming against listing

  /** The row is valid and its range has a value. */
  ghost predicate HasValues(row: Row, series: bool) {
    match TableParams(row, series)
    case Ok(p) => !p.Finished(p.start)
    case Err(_) => false
  }

  ghost predicate IsBackwards(row: Row, series: bool) {
    match TableParams(row, series)
    case Ok(p) => p.Backwards()
    case Err(_) => false
  }

  /** The flag for empty ranges after the rows from `i` on. */
  ghost predicate AnyBackwards(rows: seq<Row>, series: bool, i: nat, emptyRange: bool) {
    emptyRange || exists k | i <= k < |rows| :: IsBackwards(rows[k], series)
  }

  /** No row of `rows` from `i` on that has values comes after a backwards one. */
  ghost predicate NoValuesAfterBackwards(rows: seq<Row>, series: bool, i: nat, emptyRange: bool) {
    && (emptyRange ==> forall k | i <= k < |rows| :: !HasValues(rows[k], series))
    && forall j, k | i <= j < k < |rows| :: IsBackwards(rows[j], series) ==> !HasValues(rows[k], series)
  }

  /** Only the list function accepts a zero step, unless another argument is NULL. */
  ghost predicate AcceptsStep(row: Row) {
    HasNull(row) || row.step != Some(Interval(0, 0, 0))
  }

  /** A row gives the same range both ways, unless its step is not accepted or its list too long. */
  lemma RowsAgree(add: Adder, row: Row, series: bool)
    requires Monotone(add)
    ensures var params, list := TableParams(row, series), ListOf(add, row, series);
            && (!AcceptsStep(row) ==> list == Ok([]) && params.Err?)
            && (AcceptsStep(row) && params.Err? ==> list == Err(params.error) && list.error != AddFailed && list.error != TooLong)
            && (params.Ok? ==>
                  var run := Follow(add, params.value.start, params.value);
                  && AcceptsStep(row)
                  && (list == Ok([]) <==> run.values == [])
                  && (params.value.Backwards() ==> run.values == [])
                  && (list.Ok? ==> list.value == run.values && !run.failed)
                  && (list == Err(AddFailed) ==> run.failed)
                  && (list.Err? ==> list.error == TooLong || list.error == AddFailed))
  {
  }

  lemma NoValuesStep(rows: seq<Row>, series: bool, i: nat, emptyRange: bool)
    requires i < |rows|
    ensures NoValuesAfterBackwards(rows, series, i, emptyRange)
            <==> (emptyRange ==> !HasValues(rows[i], series))
                 && NoValuesAfterBackwards(rows, series, i + 1, emptyRange || IsBackwards(rows[i], series))
  {
    hide HasValues, IsBackwards;
  }

  lemma CancelPrefix<T>(a: seq<T>, b: seq<T>, c: seq<T>)
    ensures a + b == a + c <==> b == c
  {
    if a + b == a + c {
      assert b == (a + b)[|a|..] && c == (a + c)[|a|..];
    }
  }

  /**
   The values that the table function streams are those of the list function exactly when no row with
   values comes after a backwards one, because a backwards row empties all the later ones, and no valid
   row has a zero step, which the table function refuses.
   */
  lemma {:induction false} StreamIsList(add: Adder, rows: seq<Row>, series: bool, i: nat, emptyRange: bool)
    requires Monotone(add) && i <= |rows| && ListsFrom(add, rows, series, i).Ok?
    ensures var list := ListsFrom(add, rows, series, i).value;
            var stream := TableStream(add, rows, series, i, emptyRange);
            var accepted := forall k | i <= k < |rows| :: AcceptsStep(rows[k]);
            && |stream.values| <= |list| && (stream.error == None <==> accepted)
            && (stream == Stream(list, None) <==> NoValuesAfterBackwards(rows, series, i, emptyRange) && accepted)
    decreases |rows| - i
  {
    if i == |rows| {
    } else {
      RowsAgree(add, rows[i], series);
      if AcceptsStep(rows[i]) {
        var p := TableParams(rows[i], series).value;
        var empty := emptyRange || p.Backwards();
        StreamIsList(add, rows, series, i + 1, empty);
        NoValuesStep(rows, series, i, emptyRange);
        var rest := ListsFrom(add, rows, series, i + 1).value;
        CancelPrefix(ListOf(add, rows[i], series).value, TableStream(add, rows, series, i + 1, empty).values, rest);
      }
    }
  }

  /** While rows count as empty no addition is made, so none can raise. */
  lemma {:induction false} EmptyRowsDoNotAdd(add: Adder, rows: seq<Row>, series: bool, i: nat)
    requires Monotone(add) && i <= |rows|
    ensures TableStream(add, rows, series, i, true).error != Some(AddFailed)
    decreases |rows| - i
  {
    if i == |rows| {
    } else {
      RowsAgree(add, rows[i], series);
      EmptyRowsDoNotAdd(add, rows, series, i + 1);
    }
  }

  /**
   Row `m` is the first whose list raises, other than for its length. The table function raises the
   same there, exactly unless the row counts as empty and it is an addition that would have raised;
   and if a row before it has a zero step, it raises at the first such row.
   */
  lemma {:induction false} FirstErrorAgrees(add: Adder, rows: seq<Row>, series: bool, i: nat, m: nat, emptyRange: bool)
    requires Monotone(add) && i <= m < |rows| && ListOf(add, rows[m], series).Err?
    requires forall k | i <= k < m :: ListOf(add, rows[k], series).Ok?
    ensures var e := ListOf(add, rows[m], series).error;
            var error := TableStream(add, rows, series, i, emptyRange).error;
            && ListsFrom(add, rows, series, i) == Err(e)
            && ((forall k | i <= k < m :: AcceptsStep(rows[k])) && e != TooLong ==>
                  (error == Some(e) <==>
                     (e == AddFailed ==> !emptyRange && forall k | i <= k < m :: !IsBackwards(rows[k], series))))
            && forall z | i <= z < m && !AcceptsStep(rows[z]) && (forall k | i <= k < z :: AcceptsStep(rows[k])) ::
                 error == Some(TableParams(rows[z], series).error)
    decreases m - i
  {
    hide Follow, ListOf, TableParams;
    RowsAgree(add, rows[i], series);
    EmptyRowsDoNotAdd(add, rows, series, i + 1);
    if i == m {
    } else {
      var empty := emptyRange || IsBackwards(rows[i], series);
      FirstErrorAgrees(add, rows, series, i + 1, m, empty);
    }
  }

  /** What two chunks of input yield, the second with the flag that the first leaves behind. */
  lemma {:induction false} ChunksCompose(add: Adder, rows: seq<Row>, more: seq<Row>, series: bool, i: nat, emptyRange: bool)
    requires Monotone(add) && i <= |rows|
    ensures var first := TableStream(add, rows, series, i, emptyRange);
            var second := TableStream(add, more, series, 0, AnyBackwards(rows, series, i, emptyRange));
            TableStream(add, rows + more, series, i, emptyRange)
            == if first.error.Some? then first else Stream(first.values + second.values, second.error)
    decreases |rows| - i
  {
    hide Follow, TableParams;
    if i == |rows| {
      StreamOfLater(add, rows, more, series, 0, emptyRange);
      var second := TableStream(add, more, series, 0, emptyRange);
      assert [] + second.values == second.values;
    } else if TableParams(rows[i], series).Ok? {
      var p := TableParams(rows[i], series).value;
      assert (rows + more)[i] == rows[i];
      var empty := emptyRange || p.Backwards();
      assert AnyBackwards(rows, series, i, emptyRange) == AnyBackwards(rows, series, i + 1, empty);
      ChunksCompose(add, rows, more, series, i + 1, empty);
      var run, first := Follow(add, p.start, p), TableStream(add, rows, series, i + 1, empty);
      hide AnyBackwards;
      var second := TableStream(add, more, series, 0, AnyBackwards(rows, series, i + 1, empty));
      assert run.values + (first.values + second.values) == run.values + first.values + second.values;
    }
  }

  lemma {:induction false} StreamOfLater(add: Adder, rows: seq<Row>, more: seq<Row>, series: bool, i: nat, emptyRange: bool)
    requires Monotone(add) && i <= |more|
    ensures TableStream(add, rows + more, series, |rows| + i, emptyRange) == TableStream(add, more, series, i, emptyRange)
    decreases |more| - i
  {
    hide Follow;
    if i == |more| {
    } else {
      assert (rows + more)[|rows| + i] == more[i];
      StreamOfLater(add, rows, more, series, i + 1, true);
      StreamOfLater(add, rows, more, series, i + 1, false);
    }
  }

  /** Addition of microseconds, for the examples. */
  function AddMicros(t: Timestamp, s: Interval): Option<Timestamp> {
    if s.months == 0 && s.days == 0 && -INFINITY <= t + s.micros <= INFINITY then Some(t + s.micros) else None
  }

  /** A row whose start is past its end hides the values of the row after it; a zero step is an error only in a table. */
  lemma StreamsThatAreNoLists()
    ensures Monotone(AddMicros)
    ensures var step := Some(Interval(0, 0, 1));
            var rows := [Row(Some(1), Some(0), step), Row(Some(0), Some(1), step)];
            && ListsFrom(AddMicros, rows, false, 0) == Ok([0])
            && TableStream(AddMicros, rows, false, 0, false) == Stream([], None)
    ensures var rows := [Row(Some(0), Some(1), Some(Interval(0, 0, 0)))];
            && ListsFrom(AddMicros, rows, false, 0) == Ok([])
            && TableStream(AddMicros, rows, false, 0, false) == Stream([], Some(ZeroInterval))
  {
    var step := Interval(0, 0, 1);
    var rows := [Row(Some(1), Some(0), Some(step)), Row(Some(0), Some(1), Some(step))];
    var p := Params(0, 1, step, true, false);
    assert Follow(AddMicros, 1, p) == Run([], false);
    assert Follow(AddMicros, 0, p) == Run([0], false);
    assert ListsFrom(AddMicros, rows, false, 2) == Ok([]);
    assert ListOf(AddMicros, rows[1], false) == Ok([0]);
    assert ListsFrom(AddMicros, rows, false, 1) == Ok([0]);
    assert ListOf(AddMicros, rows[0], false) == Ok([]);
    assert [] + [0] == [0];
    assert TableStream(AddMicros, rows, false, 2, true) == Stream([], None);
    assert TableStream(AddMicros, rows, false, 1, true) == Stream([], None);
    var zero := [Row(Some(0), Some(1), Some(Interval(0, 0, 0)))];
    assert ListsFrom(AddMicros, zero, false, 1) == Ok([]);
    assert ListOf(AddMicros, zero[0], false) == Ok([]);
    var none: seq<Timestamp> := [];
    assert none + none == none;
  }

  lemma NoRowsLeft(add: Adder, rows: seq<Row>, series: bool, emptyRange: bool)
    requires Monotone(add)
    ensures TableStream(add, rows, series, |rows|, emptyRange) == Stream([], None)
  {
  }

  // ---------------------------------------------------------------- the table function

  datatype OperatorResult = NEED_MORE_INPUT | HAVE_MORE_OUTPUT

  class ICURangeLocalState {
    var initializedRow: bool
    var currentInputRow: nat
    var currentState: Timestamp
    var start: Timestamp
    var end: Timestamp
    var increment: Interval
    var inclusiveBound: bool
    var greaterThanCheck: bool
    var emptyRange: bool

    constructor ()
      ensures !initializedRow && currentInputRow == 0 && !emptyRange
    {
      initializedRow, currentInputRow, emptyRange := false, 0, false;
      currentState, start, end, increment := 0, 0, 0, Interval(0, 0, 0);
      inclusiveBound, greaterThanCheck := false, false;
    }

    ghost function Parameters(): Params
      reads this
    {
      Params(start, end, increment, greaterThanCheck, inclusiveBound)
    }

    /** Between two calls on the same rows. */
    ghost predicate Valid(rows: seq<Row>)
      reads this
    {
      && currentInputRow <= |rows|
      && (initializedRow ==> !emptyRange && currentInputRow < |rows| && Parameters().Runs(currentState))
    }

    /** What the calls still to come will produce. */
    ghost function Rest(add: Adder, rows: seq<Row>, series: bool): Stream
      requires Valid(rows) && Monotone(add)
      reads this
    {
      if initializedRow then
        TableStream(add, rows, series, currentInputRow + 1, false).After(Follow(add, currentState, Parameters()))
      else
        TableStream(add, rows, series, currentInputRow, emptyRange)
    }

    /** The flag once all rows have been begun: it stays set from one chunk of input to the next. */
    ghost predicate FlagAtEnd(rows: seq<Row>, series: bool)
      reads this
    {
      AnyBackwards(rows, series, if initializedRow then currentInputRow + 1 else currentInputRow, emptyRange)
    }

    predicate Finished(currentValue: Timestamp)
      reads this
      ensures Finished(currentValue) == Parameters().Finished(currentValue)
    {
      if greaterThanCheck then
        if inclusiveBound then currentValue > end else currentValue >= end
      else
        if inclusiveBound then currentValue < end else currentValue <= end
    }

    method GenerateParameters(row: Row, series: bool) returns (error: Option<RangeError>)
      modifies this
      ensures initializedRow == old(initializedRow) && currentInputRow == old(currentInputRow)
      ensures match TableParams(row, series)
              case Err(e) => error == Some(e)
              case Ok(p) => error == None && Parameters() == p && emptyRange == (old(emptyRange) || p.Backwards())
    {
      if HasNull(row) {
        start, end, increment := 0, 0, Interval(0, 0, 0);
        greaterThanCheck, inclusiveBound := true, false;
        return None;
      }
      start, end, increment := row.start.value, row.end.value, row.step.value;
      if !IsFinite(start) || !IsFinite(end) {
        return Some(InfiniteBounds);
      }
      if increment.months == 0 && increment.days == 0 && increment.micros == 0 {
        return Some(ZeroInterval);
      }
      if increment.months > 0 || increment.days > 0 || increment.micros > 0 {
        if increment.months < 0 || increment.days < 0 || increment.micros < 0 {
          return Some(MixedSigns);
        }
        greaterThanCheck := true;
        if start > end {
          emptyRange := true;
        }
      } else {
        greaterThanCheck := false;
        if start < end {
          emptyRange := true;
        }
      }
      inclusiveBound := series;
      error := None;
    }

    method InitializeRow(rows: seq<Row>, series: bool, ghost add: Adder) returns (error: Option<RangeError>)
      requires Valid(rows) && !initializedRow && currentInputRow < |rows| && Monotone(add)
      modifies this
      ensures currentInputRow == old(currentInputRow)
      ensures error.Some? ==> old(Rest(add, rows, series)) == Stream([], error)
      ensures error == None ==>
                && initializedRow && Parameters().Runs(currentState)
                && old(Rest(add, rows, series)) ==
                   var later := TableStream(add, rows, series, currentInputRow + 1, emptyRange);
                   if emptyRange then later else later.After(Follow(add, currentState, Parameters()))
      ensures error == None ==> FlagAtEnd(rows, series) == old(FlagAtEnd(rows, series))
    {
      hide Follow;
      error := GenerateParameters(rows[currentInputRow], series);
      if error.Some? {
        return;
      }
      initializedRow := true;
      currentState := start;
    }

    /** Writes the next values of the row's range, until it is finished or the chunk is full. */
    method FillChunk(add: Adder, output: array<Timestamp>) returns (size: nat, failed: bool)
      requires Monotone(add) && Parameters().Runs(currentState) && output.Length >= 1
      modifies this`currentState, output
      ensures size <= output.Length && Parameters().Runs(currentState)
      ensures var before := Follow(add, old(currentState), Parameters());
              if failed then before.failed && |before.values| <= output.Length
              else before == Run(output[..size] + Follow(add, currentState, Parameters()).values,
                                 Follow(add, currentState, Parameters()).failed)
      ensures !failed && size == 0 ==> Finished(currentState)
    {
      size, failed := 0, false;
      ghost var p := Parameters();
      ghost var before := Follow(add, currentState, p);
      while true
        invariant size < output.Length && Parameters() == p && p.Runs(currentState)
        invariant before == Run(output[..size] + Follow(add, currentState, p).values, Follow(add, currentState, p).failed)
        decreases output.Length - size
      {
        if Finished(currentState) {
          break;
        }
        ghost var done := output[..size];
        ghost var value := currentState;
        output[size] := currentState;
        size := size + 1;
        assert output[..size] == done + [value];
        var next := add(currentState, increment);
        if next == None {
          failed := true;
          return;
        }
        currentState := next.value;
        ConcatAssociates(done, [value], Follow(add, currentState, p).values);
        if size >= output.Length {
          break;
        }
      }
    }

    /** The next chunk of the current row, or else the step to the next row. */
    method ContinueRow(rows: seq<Row>, series: bool, add: Adder, output: array<Timestamp>)
      returns (size: nat, failed: bool)
      requires Valid(rows) && initializedRow && Monotone(add) && output.Length >= 1
      modifies this`currentState, this`currentInputRow, this`initializedRow, output
      ensures failed ==> old(Rest(add, rows, series)).error == Some(AddFailed)
                         && |old(Rest(add, rows, series)).values| <= output.Length
      ensures !failed ==>
                && Valid(rows) && size <= output.Length
                && old(Rest(add, rows, series)) == Stream(output[..size] + Rest(add, rows, series).values,
                                                          Rest(add, rows, series).error)
                && (size == 0 ==> Rest(add, rows, series) == old(Rest(add, rows, series)))
                && currentInputRow == old(currentInputRow) + if size == 0 then 1 else 0
      ensures !failed ==> FlagAtEnd(rows, series) == old(FlagAtEnd(rows, series))
    {
      hide TableStream;
      ghost var later := TableStream(add, rows, series, currentInputRow + 1, false);
      size, failed := FillChunk(add, output);
      if failed {
        return;
      }
      ghost var values := Follow(add, currentState, Parameters()).values;
      assert output[..size] + values + later.values == output[..size] + (values + later.values);
      if size == 0 {
        assert output[..size] + later.values == later.values;
        currentInputRow := currentInputRow + 1;
        initializedRow := false;
      }
    }

    /**
     One call. The values it writes are the next ones of the stream, and it raises only where the
     stream ends in that error; it asks for more input only when the stream has ended.
     */
    method TableRange(rows: seq<Row>, series: bool, add: Adder, output: array<Timestamp>)
      returns (result: OperatorResult, size: nat, error: Option<RangeError>)
      requires Valid(rows) && Monotone(add) && output.Length >= 1
      modifies this, output
      ensures error.Some? ==> old(Rest(add, rows, series)).error == error
                              && |old(Rest(add, rows, series)).values| <= output.Length
      ensures error == None && result == NEED_MORE_INPUT ==>
                && old(Rest(add, rows, series)) == Stream([], None) && size == 0
                && !initializedRow && currentInputRow == 0 && emptyRange == old(FlagAtEnd(rows, series))
      ensures error == None && result == HAVE_MORE_OUTPUT ==>
                FlagAtEnd(rows, series) == old(FlagAtEnd(rows, series))
      ensures error == None && result == HAVE_MORE_OUTPUT ==>
                && Valid(rows) && size <= output.Length
                && old(Rest(add, rows, series)) == Stream(output[..size] + Rest(add, rows, series).values,
                                                          Rest(add, rows, series).error)
                && (size > 0 || currentInputRow > old(currentInputRow))
                && currentInputRow >= old(currentInputRow)
    {
      hide TableStream, Follow, Monotone, IsBackwards;
      result, size, error := NEED_MORE_INPUT, 0, None;
      while true
        invariant Valid(rows) && currentInputRow >= old(currentInputRow)
        invariant error == None && result == NEED_MORE_INPUT && size == 0
        invariant Rest(add, rows, series) == old(Rest(add, rows, series))
        invariant FlagAtEnd(rows, series) == old(FlagAtEnd(rows, series))
        decreases |rows| - currentInputRow
      {
        if !initializedRow {
          if currentInputRow >= |rows| {
            NoRowsLeft(add, rows, series, emptyRange);
            currentInputRow := 0;
            initializedRow := false;
            return;
          }
          error := InitializeRow(rows, series, add);
          if error.Some? {
            return;
          }
        }
        if emptyRange {
          size := 0;
          currentInputRow := currentInputRow + 1;
          initializedRow := false;
          return HAVE_MORE_OUTPUT, 0, None;
        }
        var failed;
        size, failed := ContinueRow(rows, series, add, output);
        if failed {
          return NEED_MORE_INPUT, 0, Some(AddFailed);
        }
        if size == 0 {
          continue;
        }
        return HAVE_MORE_OUTPUT, size, None;
      }
    }
  }

  /**
   Calls the table function until it asks for more input, and collects what it writes. Whatever the
   chunk's capacity, that is the stream; a stream that ends in an error may lose its last chunk.
   */
  method StreamRows(state: ICURangeLocalState, rows: seq<Row>, series: bool, add: Adder, output: array<Timestamp>)
    returns (all: seq<Timestamp>, error: Option<RangeError>)
    requires !state.initializedRow && state.currentInputRow == 0 && Monotone(add) && output.Length >= 1
    modifies state, output
    ensures var stream := TableStream(add, rows, series, 0, old(state.emptyRange));
            && error == stream.error
            && (error == None ==> all == stream.values && !state.initializedRow && state.currentInputRow == 0)
            && all <= stream.values && |stream.values| - |all| <= output.Length
    ensures error == None ==> state.emptyRange == AnyBackwards(rows, series, 0, old(state.emptyRange))
  {
    hide TableStream, Follow, Monotone, IsBackwards;
    all, error := [], None;
    ghost var stream := state.Rest(add, rows, series);
    while true
      invariant state.Valid(rows) && state.FlagAtEnd(rows, series) == AnyBackwards(rows, series, 0, old(state.emptyRange))
      invariant stream.error == state.Rest(add, rows, series).error
      invariant stream.values == all + state.Rest(add, rows, series).values
      decreases |state.Rest(add, rows, series).values| + |rows| - state.currentInputRow
    {
      ghost var rest := state.Rest(add, rows, series);
      var result, size;
      result, size, error := state.TableRange(rows, series, add, output);
      if error.Some? || result == NEED_MORE_INPUT {
        return;
      }
      assert all + (output[..size] + state.Rest(add, rows, series).values)
          == all + output[..size] + state.Rest(add, rows, series).values;
      all := all + output[..size];
    }
  }

  // ---------------------------------------------------------------- the list function

  /** Walks a range without keeping its values. */
  method ListLength(row: Row, series: bool, add: Adder) returns (r: Result<nat, RangeError>)
    requires Monotone(add) && !HasNull(row)
    ensures match ListOf(add, row, series) case Ok(vs) => r == Ok(|vs|) case Err(e) => r == Err(e)
  {
    var (start, end, step) := (row.start.value, row.end.value, row.step.value);
    var isPositive := step.months > 0 || step.days > 0 || step.micros > 0;
    var isNegative := step.months < 0 || step.days < 0 || step.micros < 0;
    if !isNegative && !isPositive {
      return Ok(0);
    }
    if !IsFinite(start) || !IsFinite(end) {
      return Err(InfiniteBounds);
    }
    if isNegative && isPositive {
      return Err(MixedSigns);
    }
    if start > end && isPositive {
      return Ok(0);
    }
    if start < end && isNegative {
      return Ok(0);
    }
    r := CountValues(Params(start, end, step, isPositive, series), add);
  }

  /** The two loops of the count, which differ in the direction of the comparison only. */
  method CountValues(p: Params, add: Adder) returns (r: Result<nat, RangeError>)
    requires Monotone(add) && p.Runs(p.start)
    ensures var run := Follow(add, p.start, p);
            r == if run.Additions() > MAX_LIST_LENGTH then Err(TooLong)
                 else if run.failed then Err(AddFailed) else Ok(|run.values|)
  {
    var value: Timestamp, total := p.start, 0;
    if !p.up {
      while if p.inclusive then value >= p.end else value > p.end
        invariant p.Runs(value) && total <= MAX_LIST_LENGTH
        invariant var run := Follow(add, p.start, p);
                  |run.values| == total + |Follow(add, value, p).values| && run.failed == Follow(add, value, p).failed
        decreases value - p.end
      {
        var next := add(value, p.step);
        if next == None {
          return Err(AddFailed);
        }
        value, total := next.value, total + 1;
        if total > MAX_LIST_LENGTH {
          return Err(TooLong);
        }
      }
    } else {
      while if p.inclusive then value <= p.end else value < p.end
        invariant p.Runs(value) && total <= MAX_LIST_LENGTH
        invariant var run := Follow(add, p.start, p);
                  |run.values| == total + |Follow(add, value, p).values| && run.failed == Follow(add, value, p).failed
        decreases p.end - value
      {
        var next := add(value, p.step);
        if next == None {
          return Err(AddFailed);
        }
        value, total := next.value, total + 1;
        if total > MAX_LIST_LENGTH {
          return Err(TooLong);
        }
      }
    }
    r := Ok(total);
  }

  /** The lists of the first `n` rows, one after the other. */
  ghost function ListsBefore(add: Adder, rows: seq<Row>, series: bool, n: nat): Result<seq<Timestamp>, RangeError>
    requires Monotone(add) && n <= |rows|
  {
    if n == 0 then Ok([]) else
    match ListsBefore(add, rows, series, n - 1)
    case Err(e) => Err(e)
    case Ok(before) =>
      match ListOf(add, rows[n - 1], series)
      case Err(e) => Err(e)
      case Ok(vs) => Ok(before + vs)
  }

  /** The entry of a row: its list starts where the lists of the rows before it end. */
  ghost predicate IsEntry(add: Adder, rows: seq<Row>, series: bool, i: nat, e: ListEntry)
    requires Monotone(add) && i < |rows|
  {
    && ListsBefore(add, rows, series, i).Ok? && e.offset == |ListsBefore(add, rows, series, i).value|
    && ListOf(add, rows[i], series).Ok? && e.length == |ListOf(add, rows[i], series).value|
  }

  /** The first pass: the entries, and their total size. */
  method CountPass(rows: seq<Row>, series: bool, add: Adder, listData: array<ListEntry>, validity: array<bool>)
    returns (r: Result<nat, RangeError>)
    requires Monotone(add) && listData.Length == |rows| == validity.Length
    modifies listData, validity
    ensures match ListsBefore(add, rows, series, |rows|) case Ok(vs) => r == Ok(|vs|) case Err(e) => r == Err(e)
    ensures r.Ok? ==> forall i | 0 <= i < |rows| ::
              IsEntry(add, rows, series, i, listData[i]) && validity[i] == (old(validity[i]) && !HasNull(rows[i]))
  {
    hide ListOf, IsEntry, ListsBefore, Monotone;
    NoListsBefore(add, rows, series);
    var totalSize := 0;
    for i := 0 to |rows|
      invariant ListsBefore(add, rows, series, i).Ok? && totalSize == |ListsBefore(add, rows, series, i).value|
      invariant forall k | 0 <= k < i ::
          IsEntry(add, rows, series, k, listData[k]) && validity[k] == (old(validity[k]) && !HasNull(rows[k]))
      invariant forall k | i <= k < |rows| :: validity[k] == old(validity[k])
    {
      NextEntry(add, rows, series, i);
      if HasNull(rows[i]) {
        validity[i] := false;
        listData[i] := ListEntry(totalSize, 0);
      } else {
        var length := ListLength(rows[i], series, add);
        if length.Err? {
          return Err(length.error);
        }
        listData[i] := ListEntry(totalSize, length.value);
        totalSize := totalSize + length.value;
      }
    }
    r := Ok(totalSize);
  }

  lemma NoListsBefore(add: Adder, rows: seq<Row>, series: bool)
    requires Monotone(add)
    ensures ListsBefore(add, rows, series, 0) == Ok([])
  {
  }

  lemma NextEntry(add: Adder, rows: seq<Row>, series: bool, i: nat)
    requires Monotone(add) && i < |rows| && ListsBefore(add, rows, series, i).Ok?
    ensures HasNull(rows[i]) ==> ListOf(add, rows[i], series) == Ok([])
    ensures var before := ListsBefore(add, rows, series, i).value;
            match ListOf(add, rows[i], series)
            case Err(e) => ListsBefore(add, rows, series, |rows|) == Err(e)
            case Ok(vs) => && IsEntry(add, rows, series, i, ListEntry(|before|, |vs|))
                           && ListsBefore(add, rows, series, i + 1) == Ok(before + vs)
  {
    hide Follow;
    if ListOf(add, rows[i], series).Err? {
      ErrorStays(add, rows, series, i + 1, |rows|);
    }
  }

  lemma {:induction false} ErrorStays(add: Adder, rows: seq<Row>, series: bool, i: nat, n: nat)
    requires Monotone(add) && i <= n <= |rows| && ListsBefore(add, rows, series, i).Err?
    ensures ListsBefore(add, rows, series, n) == ListsBefore(add, rows, series, i)
    decreases n
  {
    if i == n {
    } else {
      ErrorStays(add, rows, series, i, n - 1);
    }
  }

  lemma {:induction false} ListsMeet(add: Adder, rows: seq<Row>, series: bool, n: nat)
    requires Monotone(add) && n <= |rows|
    ensures var before, from := ListsBefore(add, rows, series, n), ListsFrom(add, rows, series, n);
            ListsFrom(add, rows, series, 0)
            == if before.Err? then before else if from.Err? then from else Ok(before.value + from.value)
    decreases n
  {
    hide ListOf;
    if n == 0 {
      var from := ListsFrom(add, rows, series, 0);
      assert from.Ok? ==> [] + from.value == from.value;
    } else {
      ListsMeet(add, rows, series, n - 1);
      var before, list, from := ListsBefore(add, rows, series, n - 1), ListOf(add, rows[n - 1], series), ListsFrom(add, rows, series, n);
      if before.Ok? && list.Ok? && from.Ok? {
        assert before.value + (list.value + from.value) == before.value + list.value + from.value;
      }
    }
  }

  /** The second pass writes every list to its place; the sum of the lengths bounds the places. */
  method FillPass(rows: seq<Row>, series: bool, add: Adder, listData: array<ListEntry>, rangeData: array<Timestamp>)
    requires Monotone(add) && listData.Length == |rows|
    requires ListsBefore(add, rows, series, |rows|).Ok?
    requires |ListsBefore(add, rows, series, |rows|).value| == rangeData.Length
    requires forall i | 0 <= i < |rows| :: IsEntry(add, rows, series, i, listData[i])
    modifies rangeData
    ensures rangeData[..] == ListsBefore(add, rows, series, |rows|).value
  {
    hide ListOf, ListsBefore, Monotone;
    NoListsBefore(add, rows, series);
    var totalIdx := 0;
    for i := 0 to |rows|
      invariant ListsBefore(add, rows, series, i).Ok? && totalIdx == |ListsBefore(add, rows, series, i).value|
      invariant totalIdx <= rangeData.Length && rangeData[..totalIdx] == ListsBefore(add, rows, series, i).value
    {
      NextEntry(add, rows, series, i);
      FewerBefore(add, rows, series, i + 1);
      totalIdx := FillList(rows[i], series, add, listData[i].length, rangeData, totalIdx);
    }
    assert rangeData[..] == rangeData[..totalIdx];
  }

  lemma {:induction false} FewerBefore(add: Adder, rows: seq<Row>, series: bool, i: nat)
    requires Monotone(add) && i <= |rows| && ListsBefore(add, rows, series, |rows|).Ok?
    ensures ListsBefore(add, rows, series, i).Ok?
    ensures |ListsBefore(add, rows, series, i).value| <= |ListsBefore(add, rows, series, |rows|).value|
    decreases |rows| - i
  {
    if i == |rows| {
    } else {
      FewerBefore(add, rows, series, i + 1);
    }
  }

  /** One list: the start, then one addition for each further value. */
  method FillList(row: Row, series: bool, add: Adder, length: nat, rangeData: array<Timestamp>, from: nat)
    returns (totalIdx: nat)
    requires Monotone(add) && ListOf(add, row, series).Ok? && length == |ListOf(add, row, series).value|
    requires from + length <= rangeData.Length
    modifies rangeData
    ensures totalIdx == from + length
    ensures rangeData[..totalIdx] == old(rangeData[..from]) + ListOf(add, row, series).value
  {
    hide ListOf, Monotone;
    ghost var values, before := ListOf(add, row, series).value, rangeData[..from];
    totalIdx := from;
    if length == 0 {
      return;
    }
    ListIsRange(add, row, series);
    var rangeValue := row.start.value;
    for rangeIdx := 0 to length
      invariant totalIdx == from + rangeIdx
      invariant rangeValue == values[if rangeIdx == 0 then 0 else rangeIdx - 1]
      invariant rangeData[..totalIdx] == before + values[..rangeIdx]
    {
      if rangeIdx > 0 {
        assert add(values[rangeIdx - 1], row.step.value) == Some(values[rangeIdx]);
        rangeValue := add(rangeValue, row.step.value).value;
      }
      rangeData[totalIdx] := rangeValue;
      totalIdx := totalIdx + 1;
      assert rangeData[..totalIdx] == rangeData[..totalIdx - 1] + [rangeValue];
      assert values[..rangeIdx + 1] == values[..rangeIdx] + [rangeValue];
    }
    assert values[..length] == values;
  }

  /** A list that is not empty starts at the start, and each value is the previous one plus the step. */
  lemma ListIsRange(add: Adder, row: Row, series: bool)
    requires Monotone(add) && ListOf(add, row, series).Ok? && ListOf(add, row, series).value != []
    ensures !HasNull(row)
    ensures var vs := ListOf(add, row, series).value;
            vs[0] == row.start.value
            && forall k | 0 < k < |vs| :: add(vs[k - 1], row.step.value) == Some(vs[k])
  {
    var start, step := row.start.value, row.step.value;
    var p := Params(start, row.end.value, step, Positive(step), series);
    var vs := Follow(add, start, p).values;
    forall k | 0 < k < |vs|
      ensures add(vs[k - 1], step) == Some(vs[k])
    {
      RangeIsComplete(add, start, p, k - 1);
    }
  }

  /** Both passes: every row's list, one after the other, with an entry for each row. */
  method ListRange(rows: seq<Row>, series: bool, add: Adder, listData: array<ListEntry>, validity: array<bool>)
    returns (r: Result<array<Timestamp>, RangeError>)
    requires Monotone(add) && listData.Length == |rows| == validity.Length
    modifies listData, validity
    ensures match ListsFrom(add, rows, series, 0) case Ok(vs) => r.Ok? && r.value[..] == vs case Err(e) => r == Err(e)
    ensures r.Ok? ==> forall i | 0 <= i < |rows| ::
              && validity[i] == (old(validity[i]) && !HasNull(rows[i]))
              && listData[i].offset + listData[i].length <= r.value.Length
              && ListOf(add, rows[i], series)
                 == Ok(r.value[listData[i].offset..listData[i].offset + listData[i].length])
  {
    hide ListOf, IsEntry, Monotone, ListsBefore, ListsFrom;
    ListsMeet(add, rows, series, |rows|);
    NoListsFrom(add, rows, series);
    var total := CountPass(rows, series, add, listData, validity);
    if total.Err? {
      return Err(total.error);
    }
    var rangeData := new Timestamp[total.value];
    FillPass(rows, series, add, listData, rangeData);
    forall i | 0 <= i < |rows|
      ensures listData[i].offset + listData[i].length <= rangeData.Length
      ensures ListOf(add, rows[i], series)
              == Ok(rangeData[listData[i].offset..listData[i].offset + listData[i].length])
    {
      EntryIsSlice(add, rows, series, i, listData[i], |rows|);
    }
    r := Ok(rangeData);
  }

  lemma NoListsFrom(add: Adder, rows: seq<Row>, series: bool)
    requires Monotone(add)
    ensures ListsFrom(add, rows, series, |rows|) == Ok([])
    ensures var before := ListsBefore(add, rows, series, |rows|); before.Ok? ==> before.value + [] == before.value
  {
  }

  lemma {:induction false} EntryIsSlice(add: Adder, rows: seq<Row>, series: bool, i: nat, e: ListEntry, n: nat)
    requires Monotone(add) && i < n <= |rows| && ListsBefore(add, rows, series, n).Ok? && IsEntry(add, rows, series, i, e)
    ensures var all := ListsBefore(add, rows, series, n).value;
            e.offset + e.length <= |all| && ListOf(add, rows[i], series) == Ok(all[e.offset..e.offset + e.length])
    decreases n
  {
    hide ListOf;
    if i < n - 1 {
      EntryIsSlice(add, rows, series, i, e, n - 1);
      var before, vs := ListsBefore(add, rows, series, n - 1).value, ListOf(add, rows[n - 1], series).value;
      assert (before + vs)[e.offset..e.offset + e.length] == before[e.offset..e.offset + e.length];
    } else {
      var before, vs := ListsBefore(add, rows, series, i).value, ListOf(add, rows[i], series).value;
      assert (before + vs)[|before|..|before| + |vs|] == vs;
    }
  }
}
