/** Time stamps and timeouts of c-ares queries (ares_process.c). */
module QueryTiming {
  import opened Numbers
  import opened QueryIndex

  const MILLION := 1_000_000

  predicate Normal(t: Time) {
    0 <= t.usec < MILLION
  }

  /** Microseconds since the origin of the clock. */
  function Micros(t: Time): int {
    t.sec * MILLION + t.usec
  }

  /** ares__timedout */
  predicate TimedOutAt(now: Time, check: Time) {
    var secs := now.sec - check.sec;
    if secs > 0 then true
    else if secs < 0 then false
    else now.usec - check.usec >= 0
  }

  lemma TimedOutIsNotLater(now: Time, check: Time)
    requires Normal(now) && Normal(check)
    ensures TimedOutAt(now, check) <==> Micros(check) <= Micros(now)
  {
  }

  /** timeadd */
  function TimeAdd(now: Time, millisecs: int): Time
    requires 0 <= millisecs
  {
    var sec := now.sec + millisecs / 1000;
    var usec := now.usec + millisecs % 1000 * 1000;
    if usec >= MILLION then Time(sec + 1, usec - MILLION) else Time(sec, usec)
  }

  lemma TimeAddIsExact(now: Time, millisecs: int)
    requires Normal(now) && 0 <= millisecs
    ensures Normal(TimeAdd(now, millisecs))
    ensures Micros(TimeAdd(now, millisecs)) == Micros(now) + millisecs * 1000
  {
    assert millisecs == millisecs / 1000 * 1000 + millisecs % 1000;
  }

  lemma TimeAddIsLater(now: Time, millisecs: int)
    requires Normal(now) && 0 < millisecs
    ensures now.sec <= TimeAdd(now, millisecs).sec
    ensures !TimedOutAt(now, TimeAdd(now, millisecs))
  {
    TimeAddIsExact(now, millisecs);
  }

  function Pow2(n: nat): (r: nat)
    ensures r >= 1
  {
    if n == 0 then 1 else 2 * Pow2(n - 1)
  }

  lemma {:induction false} Pow2Adds(a: nat, b: nat)
    ensures Pow2(a + b) == Pow2(a) * Pow2(b)
  {
    if a > 0 {
      Pow2Adds(a - 1, b);
      assert Pow2(a + b) == 2 * Pow2(a - 1 + b);
    }
  }

  const INT_BITS := 32

  /** The timeout of a transmission: doubled `shift` times if no bit is lost on the way. */
  function Backoff(timeout: int, shift: nat): int
    requires 0 < timeout <= INT_MAX
  {
    if shift <= INT_BITS - 1 && timeout / Pow2(INT_BITS - 1 - shift) == 0
    then timeout * Pow2(shift)
    else timeout
  }

  /** The test on the shifted-out bits is the test for an overflow of a signed 32-bit word. */
  lemma BackoffIsExact(timeout: int, shift: nat)
    requires 0 < timeout <= INT_MAX
    ensures Backoff(timeout, shift) == if timeout * Pow2(shift) <= INT_MAX then timeout * Pow2(shift) else timeout
    ensures timeout <= Backoff(timeout, shift) <= INT_MAX
  {
    hide Pow2;
    var p := Pow2(shift);
    if shift <= INT_BITS - 1 {
      var room := INT_BITS - 1 - shift;
      Pow2Adds(room, shift);
      Pow2Is31();
      RoomTest(timeout, Pow2(room), p, INT_MAX + 1);
    } else {
      ShiftedOut(timeout, shift);
    }
    MulNotLess(p, 1, timeout);
  }

  lemma RoomTest(t: int, room: int, p: int, limit: int)
    requires 0 < t && 0 < room && 0 < p && room * p == limit
    ensures t / room == 0 <==> t * p < limit
  {
    if t < room {
      MulLess(t, room, p);
    } else {
      QuotientPositive(t, room);
      MulNotLess(t, room, p);
    }
  }

  lemma ShiftedOut(t: int, shift: nat)
    requires 0 < t && INT_BITS - 1 < shift
    ensures t * Pow2(shift) > INT_MAX
  {
    hide Pow2;
    var rest := shift - (INT_BITS - 1);
    Pow2Adds(INT_BITS - 1, rest);
    Pow2Is31();
    MulNotLess(Pow2(rest), 1, INT_MAX + 1);
    MulNotLess(t, 1, Pow2(shift));
  }

  lemma Pow2Is31()
    ensures Pow2(INT_BITS - 1) == INT_MAX + 1
  {
    assert Pow2(8) == 256;
    Pow2Adds(8, 8);
    Pow2Adds(16, 8);
    assert Pow2(7) == 128;
    Pow2Adds(24, 7);
  }

  lemma MulLess(a: int, b: int, p: int)
    requires a < b && 0 < p
    ensures a * p < b * p
  {
  }

  lemma MulNotLess(a: int, b: int, p: int)
    requires b <= a && 0 <= p
    ensures b * p <= a * p
  {
  }

  lemma QuotientPositive(a: int, b: int)
    requires 0 < b <= a
    ensures a / b >= 1
  {
  }
}
