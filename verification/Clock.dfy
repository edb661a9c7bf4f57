/** The 64-bit saturating time arithmetic behind the stream's expiry time. */
module Clock {
  const TICK_MAX: int := 0x7FFF_FFFF_FFFF_FFFF
  const TICK_MIN: int := -0x8000_0000_0000_0000
  const INT_MAX: int := 0x7FFF_FFFF

  /** A time point or a duration of the clock, in ticks from the epoch. */
  predicate Ticks(t: int) {
    TICK_MIN <= t <= TICK_MAX
  }

  function Clamp(t: int): int {
    if t < TICK_MIN then TICK_MIN else if t > TICK_MAX then TICK_MAX else t
  }

  /** `add` and `subtract` of the time traits.  Every intermediate result is a representable
      number of ticks. */
  function Add(t: int, d: int): (r: int)
    requires Ticks(t) && Ticks(d)
    ensures r == Clamp(t + d)
  {
    if t >= 0 then
      assert Ticks(TICK_MAX - t);
      if TICK_MAX - t < d then TICK_MAX else t + d
    else
      assert Ticks(t - TICK_MIN) && Ticks(-(t - TICK_MIN));
      if -(t - TICK_MIN) > d then TICK_MIN else t + d
  }

  function Subtract(t1: int, t2: int): (r: int)
    requires Ticks(t1) && Ticks(t2)
    ensures r == Clamp(t1 - t2)
  {
    if t1 >= 0 then
      if t2 >= 0 then t1 - t2
      else if t2 == TICK_MIN then TICK_MAX
      else
        assert Ticks(TICK_MAX - t1) && Ticks(0 - t2);
        if TICK_MAX - t1 < 0 - t2 then TICK_MAX else t1 - t2
    else
      if t2 < 0 then t1 - t2
      else if t1 == TICK_MIN then TICK_MIN
      else
        assert Ticks(TICK_MAX - t2) && Ticks(0 - t1);
        if TICK_MAX - t2 < 0 - t1 then TICK_MIN
        else
          assert Ticks(t2 - t1);
          -(t2 - t1)
  }

  /** Division of C++: toward zero. */
  function Truncate(t: int, d: int): int
    requires d > 0
  {
    if t >= 0 then t / d else -((-t) / d)
  }

  const TICKS_PER_MS: int := 1000000

  /** `timeout`: how long to poll, in milliseconds.  It never waits past the expiry time, is
      zero once that has come, and leaves less than a millisecond unless it is as long as an
      `int` can say. */
  function Timeout(expiry: int, now: int): (msec: int)
    requires Ticks(expiry) && Ticks(now)
    ensures 0 <= msec <= INT_MAX
    ensures msec > 0 ==> now + msec * TICKS_PER_MS <= expiry
    ensures expiry <= now ==> msec == 0
    ensures now <= expiry && msec < INT_MAX ==> expiry < now + (msec + 1) * TICKS_PER_MS
  {
    var msec := Truncate(Subtract(expiry, now), TICKS_PER_MS);
    if msec > INT_MAX then INT_MAX
    else if msec < 0 then 0
    else msec
  }
}
