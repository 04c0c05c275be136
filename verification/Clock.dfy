/** The handshake's timestamp test, with the 64-bit arithmetic it runs on. */
module Clock {
  import opened Bytes

  const TOLERANCE := 30

  /** Nanoseconds. */
  const SECOND := 1_000_000_000

  const TWO63 := 0x8000_0000_0000_0000

  /** Unix times below this bound, some 146 billion years, are what a clock can show. */
  const MAX_SECONDS := 0x4000_0000_0000_0000

  /** The signed 64-bit value of x. */
  function Wrap(x: int): (r: int)
    ensures -TWO63 <= r < TWO63
  {
    (x + TWO63) % TWO64 - TWO63
  }

  /** The absolute value; the most negative number is its own. */
  function Abs64(x: int): int {
    if x < 0 then Wrap(-x) else x
  }

  /** The test on the unsigned time stamp of a hello. */
  predicate Fresh(now: int, stamp: nat) {
    Abs64(Wrap(now - Wrap(stamp))) <= TOLERANCE
  }

  lemma FreshWithinTolerance(now: int, stamp: nat)
    requires 0 <= now < MAX_SECONDS && stamp < MAX_SECONDS
    ensures Fresh(now, stamp) <==> -30 <= now - stamp <= 30
  {
  }

  /**
   The meaning of the test on any time stamp: the stamp is within the tolerance, or it is exactly
   2^63 seconds away, where the absolute value wraps.
   */
  lemma FreshMeans(now: int, stamp: nat)
    requires 0 <= now < MAX_SECONDS && stamp < TWO64
    ensures Fresh(now, stamp) <==> -30 <= now - Wrap(stamp) <= 30 || now - Wrap(stamp) == TWO63
  {
    var d := now - Wrap(stamp);
    assert -TWO63 < d < TWO63 + MAX_SECONDS + 1;
  }

  /** A stamp exactly 2^63 seconds ahead of the clock passes, whatever the clock shows. */
  lemma FarStampIsFresh(now: int)
    requires 0 <= now < MAX_SECONDS
    ensures Fresh(now, now + TWO63) && Wrap(now + TWO63) == now - TWO63
  {
    FreshMeans(now, now + TWO63);
  }
}
