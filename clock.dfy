/** The board's millisecond clock: `millis()` returns an `unsigned long`, 32 bits wide
    on the ESP32, and every timeout in main.cpp is an unsigned subtraction. */
module Clock {

  const ClockWrap := 0x1_0000_0000

  type Millis = t: int | 0 <= t < 0x1_0000_0000

  /** `now - since` in 32-bit unsigned arithmetic. */
  function Elapsed(now: Millis, since: Millis): (d: Millis)
    ensures since <= now ==> d == now - since
    ensures now < since ==> d == ClockWrap - (since - now)
  {
    (now - since) % ClockWrap
  }

  /** Elapsed time adds up across an intermediate instant, as long as the total
      span stays under one wrap of the clock. */
  lemma ElapsedAdds(t0: Millis, t1: Millis, t2: Millis)
    requires Elapsed(t1, t0) + Elapsed(t2, t1) < ClockWrap
    ensures Elapsed(t2, t0) == Elapsed(t1, t0) + Elapsed(t2, t1)
  {
  }
}
