/** The rate limiter: millisecond timestamps on a clock that wraps at 2^32. */
module Timing {
  import opened Types

  /** The clock reading `d` milliseconds after `ts`. */
  function WrapAdd(ts: U32, d: nat): U32
  {
    (ts + d) % TwoTo32
  }

  /** `now - ts` computed in `unsigned long` arithmetic (DHT22.cpp line 88):
      the time that passed from `ts` to `now` on the wrapping clock. */
  function Elapsed(now: U32, ts: U32): (d: U32)
    ensures WrapAdd(ts, d) == now
  {
    (now - ts) % TwoTo32
  }

  /** The elapsed time is the only offset below 2^32 that leads from `ts` to `now`. */
  lemma ElapsedUnique(now: U32, ts: U32, d: nat)
    requires d < TwoTo32 && WrapAdd(ts, d) == now
    ensures d == Elapsed(now, ts)
  {
    var e := Elapsed(now, ts);
    WrapBelowTwoPeriods(ts + d);
    WrapBelowTwoPeriods(ts + e);
  }

  /** Reducing a sum of two 32-bit values subtracts at most one clock period. */
  lemma WrapBelowTwoPeriods(x: nat)
    requires x < 2 * TwoTo32
    ensures x % TwoTo32 == if x < TwoTo32 then x else x - TwoTo32
  {
  }

  /** `available()`: a new protocol run is allowed at `now` when the last run
      started at `ts`. It holds exactly when `now` is not among the clock
      readings of the 2000 ms that follow `ts`. */
  predicate Due(now: U32, ts: U32)
    ensures Due(now, ts) <==> forall d :: 0 <= d < MinReadInterval ==> WrapAdd(ts, d) != now
  {
    OnlyElapsedLeadsThere(now, ts);
    Elapsed(now, ts) >= MinReadInterval
  }

  /** Every offset below 2^32 that leads from `ts` to `now` is the elapsed time. */
  lemma OnlyElapsedLeadsThere(now: U32, ts: U32)
    ensures forall d :: 0 <= d < TwoTo32 && WrapAdd(ts, d) == now ==> d == Elapsed(now, ts)
  {
    forall d | 0 <= d < TwoTo32 && WrapAdd(ts, d) == now
      ensures d == Elapsed(now, ts)
    {
      ElapsedUnique(now, ts, d);
    }
  }

  /** No run is due within 2000 ms after one started, whatever its outcome. */
  lemma NotDueWithinInterval(ts: U32, d: nat)
    requires d < MinReadInterval
    ensures !Due(WrapAdd(ts, d), ts)
  {
    ElapsedUnique(WrapAdd(ts, d), ts, d);
  }

  /** A run is due again once 2000 ms or more (and less than a full clock
      period) have passed. */
  lemma DueAfterInterval(ts: U32, d: nat)
    requires MinReadInterval <= d < TwoTo32
    ensures Due(WrapAdd(ts, d), ts)
  {
    ElapsedUnique(WrapAdd(ts, d), ts, d);
  }

  /** The timestamp `begin()` stores: `(uint32_t)-DHT22_MIN_READ_INTERVAL`. */
  const BeginTimestamp: U32 := TwoTo32 - MinReadInterval

  /** After `begin()`, a run is due at every clock reading below 2^32 - 2000,
      and only there: the elapsed time is then `now + 2000`. */
  lemma DueAfterBegin(now: U32)
    ensures Due(now, BeginTimestamp) <==> now < TwoTo32 - MinReadInterval
    ensures now < TwoTo32 - MinReadInterval ==> Elapsed(now, BeginTimestamp) == now + MinReadInterval
  {
    if now < TwoTo32 - MinReadInterval {
      ElapsedUnique(now, BeginTimestamp, now + MinReadInterval);
    } else {
      ElapsedUnique(now, BeginTimestamp, now - BeginTimestamp);
    }
  }
}
