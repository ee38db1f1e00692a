/** Monotonic time. The stores read `Instant::now()`; here the current instant
    is an explicit parameter, counted in nanoseconds (the precision of Rust's
    `Duration`). */
module Clock {

  type Instant = nat

  const NANOS_PER_MILLI: nat := 1_000_000

  const NANOS_PER_SEC: nat := 1_000_000_000

  /** `since.elapsed()` observed at `now`: Rust's `Instant` subtraction
      saturates at zero, so an instant in the future has elapsed nothing. */
  function Elapsed(since: Instant, now: Instant): (d: nat)
    ensures since <= now ==> since + d == now
    ensures now < since ==> d == 0
  {
    if since <= now then now - since else 0
  }
}
