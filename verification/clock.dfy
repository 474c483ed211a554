/** Instants and durations of Go's `time` package, as unbounded integers of
    nanoseconds. Go's `time.Duration` is a 64-bit count of nanoseconds; its
    overflow is not modelled. */
module Clock {

  /** A wall-clock instant, in nanoseconds since the Unix epoch. */
  type Instant = int

  /** A signed span of time, in nanoseconds (Go's `time.Duration`). */
  type Duration = int

  const Second: Duration := 1_000_000_000
  const Hour: Duration := 3600 * Second
}
