/** Ranges of share indexes (pkg/shares/range.go). */
module ShareRange {
  /** Share indexes from `start` up to but not including `end`. */
  datatype Range = Range(start: nat, end: nat)

  const EMPTY_RANGE := Range(0, 0)
}
