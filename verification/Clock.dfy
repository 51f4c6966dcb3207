/** Instants, in nanoseconds. */
module Clock {

  const SECOND: nat := 1_000_000_000

  /** `Instant::duration_since`, which is zero when the argument is later. */
  function Elapsed(now: int, since: int): nat {
    if now < since then 0 else now - since
  }
}
