/**
 * The token bucket of the request rate limiter (src/liteclient/rate_limit.rs): 128-bit nanosecond arithmetic with
 * saturation, refined to unbounded arithmetic.
 */
module RateLimit {
  import opened Wrappers

  const NANOS_PER_SECOND: nat := 1_000_000_000
  const U32_MAX: nat := 0xFFFF_FFFF
  const U64_MAX: nat := 0xFFFF_FFFF_FFFF_FFFF
  const U128_MAX: nat := 0xFFFF_FFFF_FFFF_FFFF_FFFF_FFFF_FFFF_FFFF

  /** The largest `Duration`, in nanoseconds. */
  const MAX_DURATION: nat := U64_MAX * NANOS_PER_SECOND + 999_999_999

  type u32 = n: nat | n <= U32_MAX
  type Duration = n: nat | n <= MAX_DURATION

  datatype RateLimitError = ZeroRps | ZeroBurst

  datatype RequestRateLimit = RequestRateLimit(rps: u32, burst: u32) {
    predicate Valid() {
      rps > 0 && burst > 0
    }
  }

  type Limit = l: RequestRateLimit | l.Valid() witness RequestRateLimit(1, 1)

  function WithBurst(rps: u32, burst: u32): (r: Result<RequestRateLimit, RateLimitError>)
    ensures r.Ok? <==> RequestRateLimit(rps, burst).Valid()
    ensures r.Ok? ==> r.value == RequestRateLimit(rps, burst)
    ensures rps == 0 ==> r == Err(ZeroRps)
    ensures rps > 0 && burst == 0 ==> r == Err(ZeroBurst)
  {
    if rps == 0 then Err(ZeroRps)
    else if burst == 0 then Err(ZeroBurst)
    else Ok(RequestRateLimit(rps, burst))
  }

  // ----- The bucket in unbounded arithmetic -----

  datatype Bucket = Bucket(tokens: nat, mark: nat)

  function Elapsed(mark: nat, now: nat): nat {
    if now > mark then now - mark else 0
  }

  function NewTokens(limit: Limit, mark: nat, now: nat): nat {
    Elapsed(mark, now) * limit.rps / NANOS_PER_SECOND
  }

  function Min(a: nat, b: nat): nat {
    if a < b then a else b
  }

  /** The whole nanoseconds that a number of tokens is worth. */
  function Worth(limit: Limit, tokens: nat): nat {
    tokens * NANOS_PER_SECOND / limit.rps
  }

  function Refilled(limit: Limit, b: Bucket, now: nat): Bucket {
    var added := NewTokens(limit, b.mark, now);
    if added == 0 then b
    else Bucket(Min(limit.burst, b.tokens + added), b.mark + Worth(limit, added))
  }

  /** Nanoseconds until a token is due, rounded up. */
  function NanosPerToken(limit: Limit): nat {
    (NANOS_PER_SECOND + limit.rps - 1) / limit.rps
  }

  function WaitTime(limit: Limit, b: Bucket, now: nat): nat {
    var perToken, elapsed := NanosPerToken(limit), Elapsed(b.mark, now);
    if perToken > elapsed then perToken - elapsed else 1
  }

  /** One attempt: the bucket afterwards, and nothing when granted or the time to wait. */
  function Acquired(limit: Limit, b: Bucket, now: nat): (Bucket, Option<nat>) {
    var r := Refilled(limit, b, now);
    if r.tokens > 0 then (r.(tokens := r.tokens - 1), None) else (r, Some(WaitTime(limit, r, now)))
  }

  // ----- Saturating machine arithmetic -----

  function SaturatingSub(a: nat, b: nat): nat {
    if a < b then 0 else a - b
  }

  function SaturatingMul128(a: nat, b: nat): nat {
    Min(a * b, U128_MAX)
  }

  function SaturatingAdd32(a: nat, b: nat): nat {
    Min(a + b, U32_MAX)
  }

  // ----- The source's bucket -----

  class TokenBucket {
    const limit: Limit
    var tokens: nat
    var lastRefillNs: nat

    constructor (limit: Limit, now: Duration)
      ensures Valid() && this.limit == limit && View() == Bucket(limit.burst, now)
    {
      this.limit := limit;
      tokens := limit.burst;
      lastRefillNs := now;
    }

    predicate Valid()
      reads this
    {
      tokens <= limit.burst && lastRefillNs <= MAX_DURATION
    }

    function View(): Bucket
      reads this
    {
      Bucket(tokens, lastRefillNs)
    }

    /** No saturation and no clipping takes effect, for every duration and every 32-bit limit. */
    method Refill(nowNs: Duration)
      requires Valid()
      modifies this
      ensures Valid() && View() == Refilled(limit, old(View()), nowNs)
    {
      var elapsedNs := SaturatingSub(nowNs, lastRefillNs);
      NoOverflow(elapsedNs, limit.rps);
      var newTokens := SaturatingMul128(elapsedNs, limit.rps) / NANOS_PER_SECOND;
      if newTokens == 0 {
        return;
      }
      RefillBounds(limit, View(), nowNs);
      tokens := Min(SaturatingAdd32(tokens, Min(newTokens, U32_MAX)), limit.burst);
      lastRefillNs := lastRefillNs + SaturatingMul128(newTokens, NANOS_PER_SECOND) / limit.rps;
    }

    method WaitDuration(nowNs: Duration) returns (wait: Duration)
      requires Valid()
      ensures wait == WaitTime(limit, View(), nowNs)
    {
      var nanosPerToken := NanosPerToken(limit);
      var elapsedNs := SaturatingSub(nowNs, lastRefillNs);
      var waitNs := Max(SaturatingSub(nanosPerToken, elapsedNs), 1);
      PerTokenBound(limit);
      wait := Min(waitNs, U64_MAX);
    }

    method AcquireAt(now: Duration) returns (wait: Option<Duration>)
      requires Valid()
      modifies this
      ensures Valid()
      ensures (View(), wait) == Acquired(limit, old(View()), now)
    {
      Refill(now);
      if tokens > 0 {
        tokens := tokens - 1;
        return None;
      }
      var duration := WaitDuration(now);
      return Some(duration);
    }
  }

  function Max(a: nat, b: nat): nat {
    if a < b then b else a
  }

  // ----- Arithmetic -----

  lemma DivBounds(a: nat, b: nat)
    requires b > 0
    ensures (a / b) * b <= a < (a / b + 1) * b
  {
    var q, r := a / b, a % b;
    assert a == q * b + r && 0 <= r < b;
    assert (q + 1) * b == q * b + b;
  }

  lemma MulMonotone(a: nat, b: nat, c: nat)
    requires a <= b
    ensures a * c <= b * c
  {
  }

  /** A quotient is at least `q` when `q` times the divisor fits. */
  lemma DivAtLeast(a: nat, b: nat, q: nat)
    requires b > 0 && q * b <= a
    ensures q <= a / b
  {
    DivBounds(a, b);
    if a / b < q {
      MulMonotone(a / b + 1, q, b);
      assert false;
    }
  }

  lemma DivAtMost(a: nat, b: nat, q: nat)
    requires b > 0 && a < (q + 1) * b
    ensures a / b <= q
  {
    DivBounds(a, b);
    if a / b > q {
      MulMonotone(q + 1, a / b, b);
      assert false;
    }
  }

  lemma NoOverflow(elapsed: nat, rps: nat)
    requires elapsed <= MAX_DURATION && rps <= U32_MAX
    ensures elapsed * rps <= U128_MAX
  {
    MulMonotone(elapsed, MAX_DURATION, rps);
    MulMonotone(rps, U32_MAX, MAX_DURATION);
    assert MAX_DURATION * U32_MAX <= U128_MAX;
  }

  lemma PerTokenBound(limit: Limit)
    ensures 1 <= NanosPerToken(limit) <= NANOS_PER_SECOND
  {
    var n := NANOS_PER_SECOND + limit.rps - 1;
    DivAtLeast(n, limit.rps, 1);
    assert NANOS_PER_SECOND * limit.rps + limit.rps > n by {
      MulMonotone(1, limit.rps, NANOS_PER_SECOND);
      PositiveProduct(limit.rps);
    }
    assert (NANOS_PER_SECOND + 1) * limit.rps == NANOS_PER_SECOND * limit.rps + limit.rps;
    DivAtMost(n, limit.rps, NANOS_PER_SECOND);
  }

  lemma PositiveProduct(r: nat)
    requires r > 0
    ensures NANOS_PER_SECOND * r >= NANOS_PER_SECOND
  {
  }

  // ----- What a refill does to the mark -----

  /**
   * The mark never passes the current time, and each refill leaves less than a nanosecond between the time its tokens
   * are worth and the time it takes off.
   */
  lemma RefillBounds(limit: Limit, b: Bucket, now: nat)
    ensures var added, step := NewTokens(limit, b.mark, now), Worth(limit, NewTokens(limit, b.mark, now));
      && step <= Elapsed(b.mark, now)
      && step * limit.rps <= added * NANOS_PER_SECOND < (step + 1) * limit.rps
      && added * NANOS_PER_SECOND <= Elapsed(b.mark, now) * limit.rps
    ensures Refilled(limit, b, now).mark <= Max(b.mark, now)
    ensures b.mark <= Refilled(limit, b, now).mark
  {
    var elapsed := Elapsed(b.mark, now);
    var added := NewTokens(limit, b.mark, now);
    DivBounds(elapsed * limit.rps, NANOS_PER_SECOND);
    DivBounds(added * NANOS_PER_SECOND, limit.rps);
    assert (elapsed + 1) * limit.rps == elapsed * limit.rps + limit.rps;
    DivAtMost(added * NANOS_PER_SECOND, limit.rps, elapsed);
  }

  // ----- Exact waiting -----

  /** The moment the next token is due. */
  function Deadline(limit: Limit, b: Bucket): nat {
    b.mark + NanosPerToken(limit)
  }

  lemma FreshTokenIff(limit: Limit, mark: nat, now: nat)
    ensures NewTokens(limit, mark, now) > 0 <==> Elapsed(mark, now) >= NanosPerToken(limit)
  {
    var elapsed, perToken := Elapsed(mark, now), NanosPerToken(limit);
    var r := limit.rps;
    DivBounds(NANOS_PER_SECOND + r - 1, r);
    assert perToken * r >= NANOS_PER_SECOND by {
      assert (perToken + 1) * r == perToken * r + r;
    }
    if elapsed >= perToken {
      MulMonotone(perToken, elapsed, r);
      DivAtLeast(elapsed * r, NANOS_PER_SECOND, 1);
    } else {
      MulMonotone(elapsed, perToken - 1, r);
      assert (perToken - 1) * r == perToken * r - r;
      DivAtMost(elapsed * r, NANOS_PER_SECOND, 0);
    }
  }

  /**
   * An attempt is granted exactly when a token is left or the deadline has come; otherwise the bucket is unchanged and
   * the wait ends at the deadline.
   */
  lemma GrantedIff(limit: Limit, b: Bucket, now: nat)
    requires b.mark <= now
    ensures Acquired(limit, b, now).1 == None <==> b.tokens > 0 || now >= Deadline(limit, b)
    ensures Acquired(limit, b, now).1 != None ==> Acquired(limit, b, now) == (b, Some(Deadline(limit, b) - now))
  {
    hide NewTokens, NanosPerToken;
    FreshTokenIff(limit, b.mark, now);
  }

  /**
   * After a refused attempt at `t` with wait `w`: every attempt before `t + w` is refused with the same deadline, and
   * the first attempt at or after it is granted.
   */
  lemma WaitIsExact(limit: Limit, b: Bucket, t: nat, later: nat)
    requires b.mark <= t <= later && Acquired(limit, b, t).1.Some?
    ensures var (afterwards, wait) := Acquired(limit, b, t);
      && wait.value > 0
      && (later < t + wait.value ==> Acquired(limit, afterwards, later) == (afterwards, Some(t + wait.value - later)))
      && (later >= t + wait.value ==> Acquired(limit, afterwards, later).1 == None)
  {
    hide Acquired, NanosPerToken;
    GrantedIff(limit, b, t);
    GrantedIff(limit, b, later);
  }
}
