/** Timestamps in microseconds, and intervals of months, days and microseconds. */
module Timestamps {

  /** The largest 64-bit integer is infinity, and its negation minus infinity. */
  const INFINITY: int := 0x7FFF_FFFF_FFFF_FFFF

  type Timestamp = t: int | -INFINITY <= t <= INFINITY

  datatype Interval = Interval(months: int, days: int, micros: int)

  predicate IsFinite(t: Timestamp) {
    t != INFINITY && t != -INFINITY
  }
}
