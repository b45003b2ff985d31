/** The relay's global rate limiter: a token bucket refilled by elapsed time, over exact reals. */
module TokenBucket {
  /** The two variable fields of the bucket. `rate` is also its capacity. */
  datatype Level = Level(tokens: real, last: real)

  /** What the bucket gains in an interval, before it is capped. */
  function Earned(rate: real, from: real, to: real): real { (to - from) * rate }

  /** One call at time `now`: refill, cap, record the time, and take a token if a whole one is there. */
  function Take(rate: real, b: Level, now: real): (Level, bool) {
    var filled := b.tokens + Earned(rate, b.last, now);
    var tokens := if filled > rate then rate else filled;
    if tokens < 1.0 then (Level(tokens, now), false) else (Level(tokens - 1.0, now), true)
  }

  /** A nil limiter (RateLimit <= 0) admits everything. */
  class Limiter {
    const rate: real
    const burst: real
    var tokens: real
    var last: real

    ghost predicate Valid() { burst == rate > 0.0 }

    ghost function State(): Level
      reads this
    {
      Level(tokens, last)
    }

    constructor (rate: real, now: real)
      requires rate > 0.0
      ensures Valid() && this.rate == rate && State() == Level(rate, now)
    {
      this.rate, burst, tokens, last := rate, rate, rate, now;
    }

    method Allow(now: real) returns (ok: bool)
      requires Valid()
      modifies this
      ensures (State(), ok) == Take(rate, old(State()), now)
    {
      hide Earned;
      tokens := tokens + Earned(rate, last, now);
      if tokens > burst {
        tokens := burst;
      }
      last := now;
      if tokens < 1.0 {
        return false;
      }
      tokens := tokens - 1.0;
      return true;
    }
  }

  method NewLimiter(rate: real, now: real) returns (b: Limiter?)
    ensures b == null <==> rate <= 0.0
    ensures b != null ==> fresh(b) && b.Valid() && b.rate == rate && b.State() == Level(rate, now)
  {
    if rate <= 0.0 {
      return null;
    }
    b := new Limiter(rate, now);
  }

  // ---------- runs on a monotone clock ----------

  ghost predicate Monotone(from: real, times: seq<real>)
    decreases |times|
  {
    times == [] || (from <= times[0] && Monotone(times[0], times[1..]))
  }

  ghost predicate InBounds(rate: real, b: Level) { 0.0 <= b.tokens <= rate }

  function After(rate: real, b: Level, times: seq<real>): Level
    decreases |times|
  {
    if times == [] then b else After(rate, Take(rate, b, times[0]).0, times[1..])
  }

  /** How many of the calls at `times` are admitted within the closed window from `t1` to `t2`. */
  function AdmittedIn(rate: real, b: Level, times: seq<real>, t1: real, t2: real): nat
    decreases |times|
  {
    if times == [] then 0
    else
      var (b', ok) := Take(rate, b, times[0]);
      (if ok && t1 <= times[0] <= t2 then 1 else 0) + AdmittedIn(rate, b', times[1..], t1, t2)
  }

  /** The counter never leaves [0, burst]. */
  lemma {:induction false} TokensStayInBounds(rate: real, b: Level, times: seq<real>)
    requires rate > 0.0 && InBounds(rate, b) && Monotone(b.last, times)
    ensures InBounds(rate, After(rate, b, times))
    decreases |times|
  {
    if times != [] {
      Refill(rate, b, times[0]);
      TokensStayInBounds(rate, Take(rate, b, times[0]).0, times[1..]);
    }
  }

  lemma Refill(rate: real, b: Level, now: real)
    requires rate > 0.0 && InBounds(rate, b) && b.last <= now
    ensures var (b', ok) := Take(rate, b, now);
      && InBounds(rate, b') && b'.last == now
      && b'.tokens + (if ok then 1.0 else 0.0) <= rate
      && b'.tokens + (if ok then 1.0 else 0.0) <= b.tokens + Earned(rate, b.last, now)
  {
    EarnedSplits(rate, b.last, now, now);
    hide Earned;
  }

  lemma EarnedSplits(rate: real, s: real, m: real, t: real)
    requires rate > 0.0 && s <= m <= t
    ensures Earned(rate, s, t) == Earned(rate, s, m) + Earned(rate, m, t)
    ensures 0.0 <= Earned(rate, s, m) && 0.0 <= Earned(rate, m, t)
  {
    NotNegative(m - s, rate);
    NotNegative(t - m, rate);
  }

  lemma NotNegative(x: real, rate: real)
    requires 0.0 <= x && 0.0 < rate
    ensures 0.0 <= x * rate
  {}

  /** Once the clock is inside the window, what can still be admitted is paid for by the tokens at
      hand and the refill until the window closes. */
  lemma {:induction false} PaidFor(rate: real, b: Level, times: seq<real>, t1: real, t2: real)
    requires rate > 0.0 && InBounds(rate, b) && Monotone(b.last, times)
    ensures b.last > t2 ==> AdmittedIn(rate, b, times, t1, t2) == 0
    ensures b.last <= t2 ==> AdmittedIn(rate, b, times, t1, t2) as real <= b.tokens + Earned(rate, b.last, t2)
    decreases |times|
  {
    hide Take, Earned;
    if times == [] {
      if b.last <= t2 {
        EarnedSplits(rate, b.last, t2, t2);
      }
    } else {
      var now := times[0];
      Refill(rate, b, now);
      PaidFor(rate, Take(rate, b, now).0, times[1..], t1, t2);
      if b.last <= t2 {
        EarnedSplits(rate, b.last, if now <= t2 then now else t2, t2);
      }
    }
  }

  /** The amortised bound: whatever the calls, the requests admitted in any window number at most
      burst + rate * (t2 - t1). */
  lemma WindowBound(rate: real, b: Level, times: seq<real>, t1: real, t2: real)
    requires rate > 0.0 && InBounds(rate, b) && Monotone(b.last, times) && t1 <= t2
    ensures AdmittedIn(rate, b, times, t1, t2) as real <= rate + rate * (t2 - t1)
  {
    WindowEarns(rate, b, times, t1, t2);
  }

  lemma {:induction false} WindowEarns(rate: real, b: Level, times: seq<real>, t1: real, t2: real)
    requires rate > 0.0 && InBounds(rate, b) && Monotone(b.last, times) && t1 <= t2
    ensures AdmittedIn(rate, b, times, t1, t2) as real <= rate + Earned(rate, t1, t2)
    decreases |times|
  {
    hide Take, Earned;
    EarnedSplits(rate, t1, t1, t2);
    if times != [] {
      var now := times[0];
      Refill(rate, b, now);
      if now < t1 {
        WindowEarns(rate, Take(rate, b, now).0, times[1..], t1, t2);
      } else {
        PaidFor(rate, Take(rate, b, now).0, times[1..], t1, t2);
        if now <= t2 {
          EarnedSplits(rate, t1, now, t2);
        }
      }
    }
  }

  /** The limiter's own run: a new bucket is full, so the bound holds from the start. */
  lemma NewLimiterBound(rate: real, t0: real, times: seq<real>, t1: real, t2: real)
    requires rate > 0.0 && Monotone(t0, times) && t1 <= t2
    ensures AdmittedIn(rate, Level(rate, t0), times, t1, t2) as real <= rate + rate * (t2 - t1)
  {
    WindowBound(rate, Level(rate, t0), times, t1, t2);
  }

  // ---------- what it does admit ----------

  /** Calls at least one refill apart. */
  ghost predicate Spaced(rate: real, from: real, times: seq<real>)
    decreases |times|
  {
    times == [] || (Earned(rate, from, times[0]) >= 1.0 && Spaced(rate, times[0], times[1..]))
  }

  /** With room for one token, every call of a client that keeps the rate is admitted. */
  lemma {:induction false} SpacedCallsAreAdmitted(rate: real, b: Level, times: seq<real>, t1: real, t2: real)
    requires rate >= 1.0 && InBounds(rate, b) && Monotone(b.last, times) && Spaced(rate, b.last, times)
    requires forall i :: 0 <= i < |times| ==> t1 <= times[i] <= t2
    ensures AdmittedIn(rate, b, times, t1, t2) == |times|
    decreases |times|
  {
    if times != [] {
      Refill(rate, b, times[0]);
      SpacedCallsAreAdmitted(rate, Take(rate, b, times[0]).0, times[1..], t1, t2);
    }
  }

  /** The capacity equals the rate, so a limiter configured below one request per second has no
      room for a whole token: it refuses every request, for ever. From one on, it admits some. */
  lemma AdmitsAnythingIffRateAtLeastOne(rate: real, t0: real)
    requires rate > 0.0
    ensures (exists times, t1, t2 :: Monotone(t0, times) && AdmittedIn(rate, Level(rate, t0), times, t1, t2) > 0)
      <==> rate >= 1.0
  {
    var b := Level(rate, t0);
    if rate >= 1.0 {
      assert [t0][1..] == [];
      assert AdmittedIn(rate, b, [t0], t0, t0) == 1 + AdmittedIn(rate, Take(rate, b, t0).0, [], t0, t0);
      assert Monotone(t0, [t0]);
    } else {
      forall times, t1, t2 | Monotone(t0, times)
        ensures AdmittedIn(rate, b, times, t1, t2) == 0
      {
        RefusesAll(rate, b, times, t1, t2);
      }
    }
  }

  lemma {:induction false} RefusesAll(rate: real, b: Level, times: seq<real>, t1: real, t2: real)
    requires 0.0 < rate < 1.0
    ensures AdmittedIn(rate, b, times, t1, t2) == 0
    decreases |times|
  {
    if times != [] {
      RefusesAll(rate, Take(rate, b, times[0]).0, times[1..], t1, t2);
    }
  }
}
