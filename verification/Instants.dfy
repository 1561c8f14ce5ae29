/** `SystemTime` and `Duration`, as whole nanoseconds relative to 1970-01-01T00:00:00Z. */
module Instants {
  import opened Wrappers
  import opened CheckedInt

  const NANOS_PER_SEC: int := 1_000_000_000
  const NANOS_PER_MILLI: int := 1_000_000

  /** A Unix `SystemTime` holds its seconds in an `i64`. */
  type Instant = t: int | I64_MIN * NANOS_PER_SEC <= t < (I64_MAX + 1) * NANOS_PER_SEC

  type Duration = nat

  function FitInstant(t: int): Option<Instant> {
    if I64_MIN * NANOS_PER_SEC <= t < (I64_MAX + 1) * NANOS_PER_SEC then Some(t) else None
  }

  /** `SystemTime::checked_add`. */
  function AddDuration(t: Instant, d: Duration): Option<Instant> { FitInstant(t + d) }

  /** `SystemTime::checked_sub`. */
  function SubDuration(t: Instant, d: Duration): Option<Instant> { FitInstant(t - d) }

  function MinInstant(a: Instant, b: Instant): Instant { if a <= b then a else b }

  function TruncateToMillis(t: nat): nat { t / NANOS_PER_MILLI * NANOS_PER_MILLI }
}
