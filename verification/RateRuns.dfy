/**
 * Whole runs of the rate limiter (src/liteclient/rate_limit.rs): how many requests any sequence of attempts can be
 * granted, and the waiters that share one bucket behind a mutex.
 */
module RateRuns {
  import opened RateLimit
  import opened Wrappers

  // ----- A metered bucket -----

  /** A bucket with counts of its grants and of the refills that added tokens. */
  datatype Meter = Meter(bucket: Bucket, grants: nat, refills: nat)

  /** `RateLimiter::new`: a full bucket at time zero. */
  function Start(limit: Limit): Meter {
    Meter(Bucket(limit.burst, 0), 0, 0)
  }

  function Attempted(limit: Limit, m: Meter, now: nat): Meter {
    var (bucket, wait) := Acquired(limit, m.bucket, now);
    Meter(bucket,
          m.grants + if wait == None then 1 else 0,
          m.refills + if NewTokens(limit, m.bucket.mark, now) > 0 then 1 else 0)
  }

  /** The attempts in the order in which they held the lock, each at the time it read the clock. */
  function Run(limit: Limit, times: seq<nat>): Meter {
    if times == [] then Start(limit)
    else Attempted(limit, Run(limit, times[..|times| - 1]), times[|times| - 1])
  }

  predicate AllBy(times: seq<nat>, t: nat) {
    forall i :: 0 <= i < |times| ==> times[i] <= t
  }

  // ----- The accounting invariant -----

  /** Refills lose no time: a whole number of nanoseconds per token, or of tokens per nanosecond. */
  predicate ExactRate(limit: Limit) {
    NANOS_PER_SECOND % limit.rps == 0 || limit.rps % NANOS_PER_SECOND == 0
  }

  function Paid(m: Meter): nat {
    NANOS_PER_SECOND * (m.grants + m.bucket.tokens)
  }

  /** Every token granted or still held was there at the start or was paid for by time taken off the mark. */
  ghost predicate Accounted(limit: Limit, m: Meter, t: nat) {
    && m.bucket.mark <= t
    && Paid(m) <= NANOS_PER_SECOND * limit.burst + (m.bucket.mark + m.refills) * limit.rps
    && (ExactRate(limit) ==> Paid(m) <= NANOS_PER_SECOND * limit.burst + m.bucket.mark * limit.rps)
    && (limit.rps <= NANOS_PER_SECOND ==> m.refills <= m.bucket.mark)
  }

  lemma MultipleDivides(k: nat, r: nat)
    requires r > 0
    ensures (k * r) / r == k
  {
    DivBounds(k * r, r);
    DivAtLeast(k * r, r, k);
    assert (k + 1) * r == k * r + r;
    DivAtMost(k * r, r, k);
  }

  /** At an exact rate the mark moves by exactly what the added tokens are worth. */
  lemma ExactStep(limit: Limit, mark: nat, now: nat)
    requires ExactRate(limit)
    ensures var added := NewTokens(limit, mark, now);
      Worth(limit, added) * limit.rps == added * NANOS_PER_SECOND
  {
    var added, r := NewTokens(limit, mark, now), limit.rps;
    if NANOS_PER_SECOND % r == 0 {
      var perToken := NANOS_PER_SECOND / r;
      assert NANOS_PER_SECOND == perToken * r;
      assert added * (perToken * r) == (added * perToken) * r;
      MultipleDivides(added * perToken, r);
    } else {
      var perNano, elapsed := r / NANOS_PER_SECOND, Elapsed(mark, now);
      assert r == perNano * NANOS_PER_SECOND;
      assert elapsed * (perNano * NANOS_PER_SECOND) == (elapsed * perNano) * NANOS_PER_SECOND;
      MultipleDivides(elapsed * perNano, NANOS_PER_SECOND);
      assert added * NANOS_PER_SECOND == elapsed * r;
      MultipleDivides(elapsed, r);
    }
  }

  /** Below a request per nanosecond every refill that adds tokens moves the mark. */
  lemma MarkMoves(limit: Limit, mark: nat, now: nat)
    requires limit.rps <= NANOS_PER_SECOND && NewTokens(limit, mark, now) > 0
    ensures Worth(limit, NewTokens(limit, mark, now)) >= 1
  {
    var added := NewTokens(limit, mark, now);
    MulMonotone(1, added, NANOS_PER_SECOND);
    DivAtLeast(added * NANOS_PER_SECOND, limit.rps, 1);
  }

  /** The account after `added` tokens moved the mark by `step`; the tokens kept and granted are at most those. */
  lemma AccountStep(rps: nat, burst: nat, paid: nat, mark: nat, refills: nat, added: nat, step: nat, paidAfter: nat)
    requires paidAfter <= paid + NANOS_PER_SECOND * added
    ensures paid <= NANOS_PER_SECOND * burst + (mark + refills) * rps && added * NANOS_PER_SECOND < (step + 1) * rps ==>
      paidAfter <= NANOS_PER_SECOND * burst + (mark + step + refills + 1) * rps
    ensures paid <= NANOS_PER_SECOND * burst + mark * rps && added * NANOS_PER_SECOND == step * rps ==>
      paidAfter <= NANOS_PER_SECOND * burst + (mark + step) * rps
  {
    assert (mark + step + refills + 1) * rps == (mark + refills) * rps + (step + 1) * rps;
    assert (mark + step) * rps == mark * rps + step * rps;
  }

  lemma AttemptKeepsAccount(limit: Limit, m: Meter, now: nat, t: nat)
    requires Accounted(limit, m, t) && now <= t
    ensures Accounted(limit, Attempted(limit, m, now), t)
  {
    hide Worth, NewTokens, ExactRate;
    var added := NewTokens(limit, m.bucket.mark, now);
    var step := Worth(limit, added);
    var after := Attempted(limit, m, now);
    RefillBounds(limit, m.bucket, now);
    if added > 0 {
      assert after.grants + after.bucket.tokens <= m.grants + m.bucket.tokens + added;
      AccountStep(limit.rps, limit.burst, Paid(m), m.bucket.mark, m.refills, added, step, Paid(after));
      if ExactRate(limit) {
        ExactStep(limit, m.bucket.mark, now);
      }
      if limit.rps <= NANOS_PER_SECOND {
        MarkMoves(limit, m.bucket.mark, now);
      }
    }
  }

  lemma {:induction false} RunAccounted(limit: Limit, times: seq<nat>, t: nat)
    requires AllBy(times, t)
    ensures Accounted(limit, Run(limit, times), t)
  {
    if times != [] {
      RunAccounted(limit, times[..|times| - 1], t);
      AttemptKeepsAccount(limit, Run(limit, times[..|times| - 1]), times[|times| - 1], t);
    }
  }

  // ----- The rate bound -----

  /** The grants a metered bucket can have given by time `t`. */
  ghost predicate WithinRate(limit: Limit, m: Meter, t: nat) {
    && NANOS_PER_SECOND * m.grants <= NANOS_PER_SECOND * limit.burst + (t + m.refills) * limit.rps
    && (limit.rps <= NANOS_PER_SECOND ==> m.refills <= t)
    && (ExactRate(limit) ==> m.grants <= limit.burst + t * limit.rps / NANOS_PER_SECOND)
  }

  lemma AccountedIsWithinRate(limit: Limit, m: Meter, t: nat)
    requires Accounted(limit, m, t)
    ensures WithinRate(limit, m, t)
  {
    var r := limit.rps;
    MulMonotone(m.bucket.mark + m.refills, t + m.refills, r);
    if ExactRate(limit) && m.grants > limit.burst {
      MulMonotone(m.bucket.mark, t, r);
      DivAtLeast(t * r, NANOS_PER_SECOND, m.grants - limit.burst);
    }
  }

  /**
   * For attempts at any times up to `t`, in any order: grants stay below burst plus rate, with one nanosecond of slack
   * for each refill; at exact rates there is no slack.
   */
  lemma RateBound(limit: Limit, times: seq<nat>, t: nat)
    requires AllBy(times, t)
    ensures WithinRate(limit, Run(limit, times), t)
  {
    RunAccounted(limit, times, t);
    AccountedIsWithinRate(limit, Run(limit, times), t);
  }

  // ----- Which limits limit anything -----

  /** Some number of grants by time `t` is never exceeded. */
  ghost predicate Bounded(limit: Limit, t: nat) {
    exists most: nat :: BoundedBy(limit, t, most)
  }

  ghost predicate BoundedBy(limit: Limit, t: nat, most: nat) {
    forall times: seq<nat> :: AllBy(times, t) ==> Run(limit, times).grants <= most
  }

  /** The check a caller can make: at most one token a nanosecond, or a whole number of them. */
  predicate Limiting(limit: Limit) {
    limit.rps <= NANOS_PER_SECOND || limit.rps % NANOS_PER_SECOND == 0
  }

  function Ones(n: nat): (times: seq<nat>)
    ensures |times| == n && AllBy(times, 1)
  {
    seq(n, i => 1)
  }

  /** One nanosecond is worth some tokens, and those tokens are worth less than a nanosecond: the mark stays at zero. */
  lemma MarkSticks(limit: Limit)
    requires !Limiting(limit)
    ensures NewTokens(limit, 0, 1) > 0 && Worth(limit, NewTokens(limit, 0, 1)) == 0
  {
    var added, r := NewTokens(limit, 0, 1), limit.rps;
    assert Elapsed(0, 1) * r == r;
    DivBounds(r, NANOS_PER_SECOND);
    DivAtLeast(r, NANOS_PER_SECOND, 1);
    assert added * NANOS_PER_SECOND < r by {
      assert r == added * NANOS_PER_SECOND + r % NANOS_PER_SECOND;
    }
    DivAtMost(added * NANOS_PER_SECOND, r, 0);
  }

  lemma {:induction false} AllGranted(limit: Limit, n: nat)
    requires !Limiting(limit)
    ensures Run(limit, Ones(n)).grants == n && Run(limit, Ones(n)).bucket.mark == 0
  {
    if n > 0 {
      AllGranted(limit, n - 1);
      MarkSticks(limit);
      assert Ones(n)[..n - 1] == Ones(n - 1);
    }
  }

  lemma LimitingIsBounded(limit: Limit, t: nat)
    requires Limiting(limit)
    ensures Bounded(limit, t)
  {
    hide Run, Limiting, WithinRate;
    var most := limit.burst + 2 * t * limit.rps + t * limit.rps / NANOS_PER_SECOND;
    forall times: seq<nat> | AllBy(times, t) ensures Run(limit, times).grants <= most {
      RateBound(limit, times, t);
      LimitingBound(limit, Run(limit, times), t);
    }
    assert BoundedBy(limit, t, most);
  }

  lemma UnlimitedIsUnbounded(limit: Limit, t: nat)
    requires !Limiting(limit) && t >= 1
    ensures !Bounded(limit, t)
  {
    hide Run, Limiting;
    forall most: nat ensures !BoundedBy(limit, t, most) {
      AllGranted(limit, most + 1);
      assert AllBy(Ones(most + 1), t);
    }
  }

  /**
   * The limiter bounds the number of grants exactly when the rate is at most one request per nanosecond or a whole
   * number of them; at every other rate any number of attempts one nanosecond after the start is granted.
   */
  lemma BoundedIffLimiting(limit: Limit, t: nat)
    requires t >= 1
    ensures Bounded(limit, t) <==> Limiting(limit)
  {
    hide Limiting, Bounded;
    if Limiting(limit) {
      LimitingIsBounded(limit, t);
    } else {
      UnlimitedIsUnbounded(limit, t);
    }
  }

  lemma LimitingBound(limit: Limit, m: Meter, t: nat)
    requires WithinRate(limit, m, t) && Limiting(limit)
    ensures m.grants <= limit.burst + 2 * t * limit.rps + t * limit.rps / NANOS_PER_SECOND
  {
    if limit.rps <= NANOS_PER_SECOND {
      MulMonotone(t + m.refills, 2 * t, limit.rps);
      var extra := 2 * t * limit.rps;
      assert NANOS_PER_SECOND * m.grants <= NANOS_PER_SECOND * limit.burst + extra;
      assert extra <= NANOS_PER_SECOND * extra;
      assert NANOS_PER_SECOND * m.grants <= NANOS_PER_SECOND * (limit.burst + extra);
    }
  }

  // ----- Waiters behind the mutex -----

  datatype Waiter = Ready | Sleeping(until: nat) | Served

  /** One bucket, one clock, and the waiters inside `acquire`. */
  datatype System = System(limit: Limit, meter: Meter, clock: nat, waiters: seq<Waiter>)

  datatype Step = Arrive | Tick(nanos: nat) | Attempt(waiter: nat)

  function Initial(limit: Limit): System {
    System(limit, Start(limit), 0, [])
  }

  /** A waiter may attempt when it has just called or when its sleep is over; how late it wakes is not fixed. */
  predicate Enabled(s: System, step: Step) {
    match step
    case Arrive => true
    case Tick(_) => true
    case Attempt(i) => i < |s.waiters| && match s.waiters[i]
      case Ready => true
      case Sleeping(until) => until <= s.clock
      case Served => false
  }

  /** The clock is read while the lock is held, so an attempt sees the bucket and the time together. */
  function Next(s: System, step: Step): System
    requires Enabled(s, step)
  {
    match step
    case Arrive => s.(waiters := s.waiters + [Ready])
    case Tick(nanos) => s.(clock := s.clock + nanos)
    case Attempt(i) =>
      var wait := Acquired(s.limit, s.meter.bucket, s.clock).1;
      s.(meter := Attempted(s.limit, s.meter, s.clock),
         waiters := s.waiters[i := if wait == None then Served else Sleeping(s.clock + wait.value)])
  }

  /** The system after some steps from the start, if each was enabled when it was taken. */
  function Exec(limit: Limit, steps: seq<Step>): Option<System> {
    if steps == [] then Some(Initial(limit))
    else match Exec(limit, steps[..|steps| - 1])
      case None => None
      case Some(before) =>
        var step := steps[|steps| - 1];
        if Enabled(before, step) then Some(Next(before, step)) else None
  }

  predicate Reachable(s: System, steps: seq<Step>) {
    Exec(s.limit, steps) == Some(s)
  }

  function ServedCount(waiters: seq<Waiter>): nat {
    if waiters == [] then 0
    else ServedCount(waiters[..|waiters| - 1]) + if waiters[|waiters| - 1].Served? then 1 else 0
  }

  lemma {:induction false} ServeOne(waiters: seq<Waiter>, i: nat, w: Waiter)
    requires i < |waiters| && !waiters[i].Served?
    ensures ServedCount(waiters[i := w]) == ServedCount(waiters) + if w.Served? then 1 else 0
  {
    var updated := waiters[i := w];
    var last := |waiters| - 1;
    if i < last {
      ServeOne(waiters[..last], i, w);
      assert updated[..last] == waiters[..last][i := w];
    } else {
      assert updated[..last] == waiters[..last];
    }
  }

  /** What every reachable system satisfies. */
  ghost predicate Invariant(s: System) {
    && Accounted(s.limit, s.meter, s.clock)
    && s.meter.grants == ServedCount(s.waiters)
    && forall i :: 0 <= i < |s.waiters| && s.waiters[i].Sleeping? ==>
         s.waiters[i].until <= Deadline(s.limit, s.meter.bucket)
  }

  lemma LaterAccount(limit: Limit, m: Meter, t: nat, later: nat)
    requires Accounted(limit, m, t) && t <= later
    ensures Accounted(limit, m, later)
  {
  }

  lemma StepKeepsInvariant(s: System, step: Step)
    requires Invariant(s) && Enabled(s, step)
    ensures Invariant(Next(s, step))
  {
    hide Accounted, NanosPerToken, Worth, NewTokens;
    var after := Next(s, step);
    match step
    case Arrive =>
      assert after.waiters[..|s.waiters|] == s.waiters;
    case Tick(nanos) =>
      LaterAccount(s.limit, s.meter, s.clock, s.clock + nanos);
    case Attempt(i) =>
      AttemptKeepsAccount(s.limit, s.meter, s.clock, s.clock);
      ServeOne(s.waiters, i, after.waiters[i]);
      AttemptMovesDeadline(s);
  }

  /** An attempt never brings the deadline forward, and a refused one sleeps until the deadline. */
  lemma AttemptMovesDeadline(s: System)
    requires s.meter.bucket.mark <= s.clock || Accounted(s.limit, s.meter, s.clock)
    ensures var (bucket, wait) := Acquired(s.limit, s.meter.bucket, s.clock);
      && Deadline(s.limit, s.meter.bucket) <= Deadline(s.limit, bucket)
      && (wait.Some? ==> s.clock + wait.value == Deadline(s.limit, bucket))
  {
    GrantedIff(s.limit, s.meter.bucket, s.clock);
    RefillBounds(s.limit, s.meter.bucket, s.clock);
  }

  lemma {:induction false} LimitIsFixed(limit: Limit, steps: seq<Step>)
    ensures Exec(limit, steps).Some? ==> Exec(limit, steps).value.limit == limit
  {
    if steps != [] {
      LimitIsFixed(limit, steps[..|steps| - 1]);
    }
  }

  lemma {:induction false} ReachableInvariant(s: System, steps: seq<Step>)
    requires Reachable(s, steps)
    ensures Invariant(s)
    decreases |steps|
  {
    if steps != [] {
      var before := Exec(s.limit, steps[..|steps| - 1]).value;
      LimitIsFixed(s.limit, steps[..|steps| - 1]);
      ReachableInvariant(before, steps[..|steps| - 1]);
      StepKeepsInvariant(before, steps[|steps| - 1]);
    }
  }

  /** However the waiters interleave, no more of them are served by time `t` than the rate allows. */
  lemma ServedWithinRate(s: System, steps: seq<Step>)
    requires Reachable(s, steps)
    ensures NANOS_PER_SECOND * ServedCount(s.waiters)
      <= NANOS_PER_SECOND * s.limit.burst + (s.clock + s.meter.refills) * s.limit.rps
    ensures s.limit.rps <= NANOS_PER_SECOND ==> s.meter.refills <= s.clock
    ensures ExactRate(s.limit) ==>
      ServedCount(s.waiters) <= s.limit.burst + s.clock * s.limit.rps / NANOS_PER_SECOND
  {
    ReachableInvariant(s, steps);
    AccountedIsWithinRate(s.limit, s.meter, s.clock);
  }

  /**
   * Nobody oversleeps: once the deadline of the bucket has come, every unserved waiter may attempt, and whichever
   * attempts first is served. Before that, with no token left, every attempt is refused until exactly the deadline.
   */
  lemma FirstAtDeadlineIsServed(s: System, steps: seq<Step>, i: nat)
    requires Reachable(s, steps) && i < |s.waiters| && !s.waiters[i].Served?
    ensures s.clock >= Deadline(s.limit, s.meter.bucket) ==>
      Enabled(s, Attempt(i)) && Next(s, Attempt(i)).waiters[i] == Served
    ensures Enabled(s, Attempt(i)) && s.clock < Deadline(s.limit, s.meter.bucket) && s.meter.bucket.tokens == 0 ==>
      Next(s, Attempt(i)).waiters[i] == Sleeping(Deadline(s.limit, s.meter.bucket))
  {
    ReachableInvariant(s, steps);
    GrantedIff(s.limit, s.meter.bucket, s.clock);
  }
}
