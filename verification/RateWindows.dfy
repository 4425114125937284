/**
 * The rate limiter over any window of time, not only from the start (src/liteclient/rate_limit.rs). A refill caps the
 * tokens at the burst but keeps the fraction of a token that has already accrued, so a window can see one grant more
 * than the burst and the rate allow; and where a token is worth no whole number of nanoseconds, nor a nanosecond a
 * whole number of tokens, the rounding of the mark adds up. For every state and every rate it is known whether any
 * window from it exceeds burst plus rate.
 */
module RateWindows {
  import opened RateLimit
  import opened RateRuns
  import opened Wrappers

  // ----- Refills at two times -----

  lemma DivMonotone(a: nat, b: nat, c: nat)
    requires a <= b && c > 0
    ensures a / c <= b / c
  {
    var q := a / c;
    DivBounds(a, c);
    assert q * c <= b;
    DivAtLeast(b, c, q);
  }

  lemma FreshIsMonotone(limit: Limit, mark: nat, early: nat, late: nat)
    requires early <= late
    ensures NewTokens(limit, mark, early) <= NewTokens(limit, mark, late)
    ensures Worth(limit, NewTokens(limit, mark, early)) <= Worth(limit, NewTokens(limit, mark, late))
  {
    MulMonotone(Elapsed(mark, early), Elapsed(mark, late), limit.rps);
    DivMonotone(Elapsed(mark, early) * limit.rps, Elapsed(mark, late) * limit.rps, NANOS_PER_SECOND);
    WorthMonotone(limit, NewTokens(limit, mark, early), NewTokens(limit, mark, late));
  }

  lemma WorthMonotone(limit: Limit, x: nat, y: nat)
    requires x <= y
    ensures Worth(limit, x) <= Worth(limit, y)
  {
    MulMonotone(x, y, NANOS_PER_SECOND);
    DivMonotone(x * NANOS_PER_SECOND, y * NANOS_PER_SECOND, limit.rps);
  }

  /** Nanoseconds a refill can lose: one at most, and none at exact rates. */
  function Loss(limit: Limit): nat {
    if ExactRate(limit) then 0 else 1
  }

  lemma FreshBound(limit: Limit, mark: nat, now: nat)
    ensures Elapsed(mark, now) * limit.rps < (NewTokens(limit, mark, now) + 1) * NANOS_PER_SECOND
  {
    DivBounds(Elapsed(mark, now) * limit.rps, NANOS_PER_SECOND);
  }

  /** What a refill takes off the mark, and what it leaves, in tokens. */
  lemma RefillStep(limit: Limit, mark: nat, now: nat)
    ensures var added := NewTokens(limit, mark, now);
      var step := Worth(limit, added);
      && added * NANOS_PER_SECOND <= (step + Loss(limit)) * limit.rps
      && now * limit.rps < NANOS_PER_SECOND + (mark + step + Loss(limit)) * limit.rps
  {
    hide ExactRate, Worth, NewTokens, Refilled;
    var r, added := limit.rps, NewTokens(limit, mark, now);
    var step := Worth(limit, added);
    RefillBounds(limit, Bucket(0, mark), now);
    FreshBound(limit, mark, now);
    if ExactRate(limit) {
      ExactStep(limit, mark, now);
    }
    LossCovers(limit, added, step);
    StepArithmetic(r, mark, now, Elapsed(mark, now), added, step, Loss(limit));
  }

  lemma LossCovers(limit: Limit, added: nat, step: nat)
    requires added * NANOS_PER_SECOND < (step + 1) * limit.rps
    requires ExactRate(limit) ==> step * limit.rps == added * NANOS_PER_SECOND
    ensures added * NANOS_PER_SECOND <= (step + Loss(limit)) * limit.rps
  {
    hide ExactRate;
  }

  lemma StepArithmetic(rps: nat, mark: nat, now: nat, elapsed: nat, added: nat, step: nat, loss: nat)
    requires now <= mark + elapsed
    requires elapsed * rps < (added + 1) * NANOS_PER_SECOND && added * NANOS_PER_SECOND <= (step + loss) * rps
    ensures now * rps < NANOS_PER_SECOND + (mark + step + loss) * rps
  {
    MulMonotone(now, mark + elapsed, rps);
    assert (mark + elapsed) * rps == mark * rps + elapsed * rps;
    assert (mark + step + loss) * rps == mark * rps + (step + loss) * rps;
  }

  // ----- The account of a window -----

  function Grants(start: Meter, m: Meter): nat {
    if m.grants >= start.grants then m.grants - start.grants else 0
  }

  /** One nanosecond for each refill since the start of the window, and none at exact rates. */
  function Slack(limit: Limit, start: Meter, m: Meter): nat {
    if ExactRate(limit) || m.refills < start.refills then 0 else m.refills - start.refills
  }

  /** What the window has seen: no refill yet, or a full account. */
  ghost predicate Window(limit: Limit, start: Meter, from: nat, m: Meter) {
    && start.grants <= m.grants && start.refills <= m.refills && m.bucket.tokens <= limit.burst
    && if m.refills == start.refills then
         && m.bucket.mark == start.bucket.mark
         && Grants(start, m) + m.bucket.tokens == start.bucket.tokens
         && (Grants(start, m) > 0 ==> NewTokens(limit, start.bucket.mark, from) == 0)
       else
         NANOS_PER_SECOND * (Grants(start, m) + m.bucket.tokens) + from * limit.rps
         < NANOS_PER_SECOND * (limit.burst + 1) + (m.bucket.mark + Slack(limit, start, m)) * limit.rps
  }

  lemma WindowArithmetic(
    rps: nat, burst: nat, from: nat, paid: nat, mark: nat, slack: nat, added: nat, step: nat, loss: nat, paidAfter: nat)
    requires paidAfter <= paid + added && added * NANOS_PER_SECOND <= (step + loss) * rps
    requires NANOS_PER_SECOND * paid + from * rps < NANOS_PER_SECOND * (burst + 1) + (mark + slack) * rps
    ensures NANOS_PER_SECOND * paidAfter + from * rps
      < NANOS_PER_SECOND * (burst + 1) + (mark + step + (slack + loss)) * rps
  {
    assert (mark + step + (slack + loss)) * rps == (mark + slack) * rps + (step + loss) * rps;
  }

  lemma AttemptKeepsWindow(limit: Limit, start: Meter, from: nat, m: Meter, now: nat)
    requires Window(limit, start, from, m) && from <= now && start.bucket.tokens <= limit.burst
    ensures Window(limit, start, from, Attempted(limit, m, now))
  {
    hide Worth, NewTokens, ExactRate;
    var mark := m.bucket.mark;
    var added := NewTokens(limit, mark, now);
    var step := Worth(limit, added);
    var after := Attempted(limit, m, now);
    FreshIsMonotone(limit, start.bucket.mark, from, now);
    if added > 0 {
      RefillStep(limit, mark, now);
      var paid, paidAfter := Grants(start, m) + m.bucket.tokens, Grants(start, after) + after.bucket.tokens;
      assert paidAfter <= paid + added;
      if m.refills > start.refills {
        WindowArithmetic(limit.rps, limit.burst, from, paid, mark, Slack(limit, start, m), added, step, Loss(limit),
                         paidAfter);
      } else if Grants(start, m) > 0 {
        RefillStep(limit, start.bucket.mark, from);
        NoTokensNoWorth(limit);
        FirstRefillLate(limit, from, paid, mark, added, step, paidAfter);
      } else {
        assert paidAfter <= limit.burst;
        MulMonotone(from, now, limit.rps);
      }
    }
  }

  lemma NoTokensNoWorth(limit: Limit)
    ensures Worth(limit, 0) == 0
  {
  }

  /** Grants came before the first refill, so less than a token had accrued when the window opened. */
  lemma FirstRefillLate(limit: Limit, from: nat, paid: nat, mark: nat, added: nat, step: nat, paidAfter: nat)
    requires NewTokens(limit, mark, from) == 0 && paid <= limit.burst && paidAfter <= paid + added
    requires added * NANOS_PER_SECOND <= (step + Loss(limit)) * limit.rps
    ensures NANOS_PER_SECOND * paidAfter + from * limit.rps
      < NANOS_PER_SECOND * (limit.burst + 1) + (mark + step + Loss(limit)) * limit.rps
  {
    var r := limit.rps;
    DivBounds(Elapsed(mark, from) * r, NANOS_PER_SECOND);
    assert (mark + step + Loss(limit)) * r == mark * r + (step + Loss(limit)) * r;
    if from > mark {
      assert from * r == mark * r + Elapsed(mark, from) * r;
    } else {
      MulMonotone(from, mark, r);
    }
  }

  /** The bound for a window of `nanos` nanoseconds. */
  ghost predicate WithinWindow(limit: Limit, start: Meter, m: Meter, nanos: nat) {
    NANOS_PER_SECOND * Grants(start, m)
    < NANOS_PER_SECOND * (limit.burst + 1) + (nanos + Slack(limit, start, m)) * limit.rps
  }

  lemma WindowIsWithin(limit: Limit, start: Meter, from: nat, m: Meter, t: nat)
    requires Window(limit, start, from, m) && m.bucket.mark <= t && from <= t && start.bucket.tokens <= limit.burst
    ensures WithinWindow(limit, start, m, t - from)
  {
    hide Grants, Slack, NewTokens;
    var b := m.bucket;
    WindowEnd(limit.rps, limit.burst, from, t, Grants(start, m), b.tokens, b.mark, Slack(limit, start, m));
  }

  lemma WindowEnd(rps: nat, burst: nat, from: nat, t: nat, grants: nat, tokens: nat, mark: nat, slack: nat)
    requires mark <= t && from <= t
    requires grants <= burst
      || NANOS_PER_SECOND * (grants + tokens) + from * rps < NANOS_PER_SECOND * (burst + 1) + (mark + slack) * rps
    ensures NANOS_PER_SECOND * grants < NANOS_PER_SECOND * (burst + 1) + (t - from + slack) * rps
  {
    MulMonotone(mark + slack, t + slack, rps);
    assert (t + slack) * rps == (t - from + slack) * rps + from * rps;
  }

  // ----- Waiters -----

  lemma {:induction false} TokensAreCapped(limit: Limit, steps: seq<Step>)
    requires Exec(limit, steps).Some?
    ensures Exec(limit, steps).value.meter.bucket.tokens <= limit.burst
  {
    hide NewTokens, Worth;
    if steps != [] {
      LimitIsFixed(limit, steps[..|steps| - 1]);
      TokensAreCapped(limit, steps[..|steps| - 1]);
    }
  }

  lemma {:induction false} WindowOfSteps(limit: Limit, before: seq<Step>, after: seq<Step>)
    requires Exec(limit, before + after).Some?
    ensures Exec(limit, before).Some?
    ensures var s, t := Exec(limit, before).value, Exec(limit, before + after).value;
      s.clock <= t.clock && Window(limit, s.meter, s.clock, t.meter)
  {
    hide Window, Attempted;
    if after == [] {
      assert before + after == before;
      TokensAreCapped(limit, before);
      WindowOpens(limit, Exec(limit, before).value.meter, Exec(limit, before).value.clock);
    } else {
      var init, last := after[..|after| - 1], after[|after| - 1];
      assert (before + after)[..|before + after| - 1] == before + init;
      WindowOfSteps(limit, before, init);
      TokensAreCapped(limit, before);
      LimitIsFixed(limit, before + init);
      var s, middle := Exec(limit, before).value, Exec(limit, before + init).value;
      if last.Attempt? {
        AttemptKeepsWindow(limit, s.meter, s.clock, middle.meter, middle.clock);
      }
    }
  }

  lemma WindowOpens(limit: Limit, m: Meter, from: nat)
    requires m.bucket.tokens <= limit.burst
    ensures Window(limit, m, from, m)
  {
  }

  /**
   * Between any two states of any run, however the waiters interleave: the further grants stay below burst plus one
   * plus rate, with a nanosecond of slack for each refill in between and none at exact rates.
   */
  lemma ServedInWindow(limit: Limit, before: seq<Step>, after: seq<Step>)
    requires Exec(limit, before + after).Some?
    ensures Exec(limit, before).Some?
    ensures var s, t := Exec(limit, before).value, Exec(limit, before + after).value;
      && s.clock <= t.clock && ServedCount(s.waiters) <= ServedCount(t.waiters)
      && NANOS_PER_SECOND * (ServedCount(t.waiters) - ServedCount(s.waiters))
         < NANOS_PER_SECOND * (limit.burst + 1) + (t.clock - s.clock + Slack(limit, s.meter, t.meter)) * limit.rps
  {
    hide Accounted, ExactRate, Exec, ServedCount, NewTokens, Slack;
    WindowOfSteps(limit, before, after);
    var s, t := Exec(limit, before).value, Exec(limit, before + after).value;
    LimitIsFixed(limit, before);
    LimitIsFixed(limit, before + after);
    ReachableInvariant(s, before);
    ReachableInvariant(t, before + after);
    TokensAreCapped(limit, before);
    MarkIsPast(t);
    WindowIsWithin(limit, s.meter, s.clock, t.meter, t.clock);
  }

  lemma MarkIsPast(s: System)
    requires Invariant(s)
    ensures s.meter.bucket.mark <= s.clock
  {
  }

  // ----- Which windows keep to burst plus rate -----

  function RunOn(limit: Limit, start: Meter, times: seq<nat>): Meter {
    if times == [] then start
    else Attempted(limit, RunOn(limit, start, times[..|times| - 1]), times[|times| - 1])
  }

  predicate AllFrom(times: seq<nat>, from: nat, t: nat) {
    forall i :: 0 <= i < |times| ==> from <= times[i] <= t
  }

  /** No attempts from now on are granted more than burst plus rate. */
  ghost predicate KeepsRate(limit: Limit, start: Meter, from: nat) {
    forall times, t :: from <= t && AllFrom(times, from, t) ==> KeepsRateOn(limit, start, from, times, t)
  }

  ghost predicate KeepsRateOn(limit: Limit, start: Meter, from: nat, times: seq<nat>, t: nat)
    requires from <= t
  {
    NANOS_PER_SECOND * Grants(start, RunOn(limit, start, times))
    <= NANOS_PER_SECOND * limit.burst + (t - from) * limit.rps
  }

  /** A refill now would not fill the bucket, or would use up all the time since the mark. */
  predicate NothingCarried(limit: Limit, b: Bucket, from: nat) {
    var now := Refilled(limit, b, from);
    now.tokens < limit.burst || now.mark == from
  }

  /** The account without the extra token: from the start of the window, or from the mark before it. */
  ghost predicate TightAccount(limit: Limit, start: Meter, from: nat, m: Meter) {
    && start.grants <= m.grants && start.refills <= m.refills && m.bucket.tokens <= limit.burst
    && if m.refills == start.refills then
         && m.bucket.mark == start.bucket.mark
         && Grants(start, m) + m.bucket.tokens == start.bucket.tokens
         && (Grants(start, m) > 0 ==> NewTokens(limit, start.bucket.mark, from) == 0)
       else
         NANOS_PER_SECOND * (Grants(start, m) + m.bucket.tokens) + from * limit.rps
         <= NANOS_PER_SECOND * limit.burst + m.bucket.mark * limit.rps
  }

  ghost predicate PlainAccount(limit: Limit, start: Meter, m: Meter) {
    && start.grants <= m.grants
    && NANOS_PER_SECOND * (Grants(start, m) + m.bucket.tokens) + start.bucket.mark * limit.rps
       <= NANOS_PER_SECOND * start.bucket.tokens + m.bucket.mark * limit.rps
  }

  lemma AttemptKeepsPlain(limit: Limit, start: Meter, m: Meter, now: nat)
    requires ExactRate(limit) && PlainAccount(limit, start, m)
    ensures PlainAccount(limit, start, Attempted(limit, m, now))
  {
    hide Worth, NewTokens, ExactRate;
    var added := NewTokens(limit, m.bucket.mark, now);
    if added > 0 {
      ExactStep(limit, m.bucket.mark, now);
      var step := Worth(limit, added);
      assert (m.bucket.mark + step) * limit.rps == m.bucket.mark * limit.rps + step * limit.rps;
    }
  }

  lemma AttemptKeepsTight(limit: Limit, start: Meter, from: nat, m: Meter, now: nat)
    requires ExactRate(limit) && TightAccount(limit, start, from, m) && from <= now
    requires start.bucket.tokens <= limit.burst && Refilled(limit, start.bucket, from).mark == from
    ensures TightAccount(limit, start, from, Attempted(limit, m, now))
  {
    hide Worth, NewTokens, ExactRate;
    var r, mark := limit.rps, m.bucket.mark;
    var added := NewTokens(limit, mark, now);
    var step := Worth(limit, added);
    FreshIsMonotone(limit, start.bucket.mark, from, now);
    NoTokensNoWorth(limit);
    if added > 0 {
      ExactStep(limit, mark, now);
      assert (mark + step) * r == mark * r + step * r;
      if m.refills == start.refills && Grants(start, m) == 0 {
        assert mark + step >= from;
        MulMonotone(from, mark + step, r);
      }
    }
  }

  lemma {:induction false} RunKeepsRate(limit: Limit, start: Meter, from: nat, times: seq<nat>, t: nat)
    requires ExactRate(limit) && start.bucket.tokens <= limit.burst && start.bucket.mark <= from
    requires AllFrom(times, from, t) && from <= t
    ensures RunOn(limit, start, times).bucket.mark <= t && PlainAccount(limit, start, RunOn(limit, start, times))
    ensures Refilled(limit, start.bucket, from).mark == from ==>
      TightAccount(limit, start, from, RunOn(limit, start, times))
  {
    hide Attempted, ExactRate, PlainAccount, Refilled;
    if times == [] {
      PlainOpens(limit, start);
    } else {
      var init, now := times[..|times| - 1], times[|times| - 1];
      RunKeepsRate(limit, start, from, init, t);
      var m := RunOn(limit, start, init);
      AttemptKeepsPlain(limit, start, m, now);
      AttemptMark(limit, m, now);
      if Refilled(limit, start.bucket, from).mark == from {
        AttemptKeepsTight(limit, start, from, m, now);
      }
    }
  }

  lemma PlainOpens(limit: Limit, start: Meter)
    ensures PlainAccount(limit, start, start)
  {
  }

  lemma AttemptMark(limit: Limit, m: Meter, now: nat)
    ensures Attempted(limit, m, now).bucket.mark <= Max(m.bucket.mark, now)
  {
    hide NewTokens, Worth;
    RefillBounds(limit, m.bucket, now);
  }

  /** Nothing carried over means burst plus rate is kept. */
  lemma NothingCarriedKeepsRate(limit: Limit, start: Meter, from: nat, times: seq<nat>, t: nat)
    requires ExactRate(limit) && start.bucket.tokens <= limit.burst && start.bucket.mark <= from
    requires AllFrom(times, from, t) && from <= t && NothingCarried(limit, start.bucket, from)
    ensures KeepsRateOn(limit, start, from, times, t)
  {
    hide Attempted, ExactRate, Refilled, RunOn, PlainAccount, TightAccount;
    var m := RunOn(limit, start, times);
    RunKeepsRate(limit, start, from, times, t);
    if Refilled(limit, start.bucket, from).mark == from {
      TightEnds(limit, start, from, m, t);
    } else {
      RoomIsLeft(limit, start.bucket, from);
      PlainEnds(limit, start, from, m, t);
    }
  }

  lemma TightEnds(limit: Limit, start: Meter, from: nat, m: Meter, t: nat)
    requires TightAccount(limit, start, from, m) && m.bucket.mark <= t && from <= t
    requires start.bucket.tokens <= limit.burst
    ensures NANOS_PER_SECOND * Grants(start, m) <= NANOS_PER_SECOND * limit.burst + (t - from) * limit.rps
  {
    hide NewTokens;
    var r := limit.rps;
    MulMonotone(m.bucket.mark, t, r);
    assert t * r == (t - from) * r + from * r && (t - from) * r >= 0;
  }

  lemma PlainEnds(limit: Limit, start: Meter, from: nat, m: Meter, t: nat)
    requires PlainAccount(limit, start, m) && m.bucket.mark <= t && from <= t
    requires NANOS_PER_SECOND * start.bucket.tokens + from * limit.rps
      <= NANOS_PER_SECOND * limit.burst + start.bucket.mark * limit.rps
    ensures NANOS_PER_SECOND * Grants(start, m) <= NANOS_PER_SECOND * limit.burst + (t - from) * limit.rps
  {
    var r := limit.rps;
    MulMonotone(m.bucket.mark, t, r);
    assert t * r == (t - from) * r + from * r;
  }

  /** A bucket that a refill would not fill has room for all the time since its mark. */
  lemma RoomIsLeft(limit: Limit, b: Bucket, from: nat)
    requires b.mark <= from && Refilled(limit, b, from).tokens < limit.burst
    ensures NANOS_PER_SECOND * b.tokens + from * limit.rps <= NANOS_PER_SECOND * limit.burst + b.mark * limit.rps
  {
    var r := limit.rps;
    DivBounds(Elapsed(b.mark, from) * r, NANOS_PER_SECOND);
    assert from * r == b.mark * r + Elapsed(b.mark, from) * r;
    assert b.tokens + NewTokens(limit, b.mark, from) + 1 <= limit.burst;
  }

  // ----- A window with one grant too many -----

  function Times(n: nat, at: nat): (times: seq<nat>)
    ensures |times| == n && forall i :: 0 <= i < n ==> times[i] == at
  {
    seq(n, i => at)
  }

  /** A full bucket is drained at once, and its mark stays where the refill left it. */
  lemma {:induction false} Drained(limit: Limit, start: Meter, from: nat, n: nat)
    requires ExactRate(limit) && start.bucket.mark <= from && Refilled(limit, start.bucket, from).tokens == limit.burst
    requires 1 <= n <= limit.burst
    ensures var m := RunOn(limit, start, Times(n, from));
      m.grants == start.grants + n && m.bucket == Bucket(limit.burst - n, Refilled(limit, start.bucket, from).mark)
    ensures NewTokens(limit, Refilled(limit, start.bucket, from).mark, from) == 0
  {
    hide NewTokens, Worth, ExactRate;
    assert Times(n, from)[..n - 1] == Times(n - 1, from);
    SpentNow(limit, start.bucket, from);
    if n == 1 {
      assert RunOn(limit, start, Times(0, from)) == start;
    } else {
      Drained(limit, start, from, n - 1);
    }
  }

  /** After a refill no token has accrued yet. */
  lemma SpentNow(limit: Limit, b: Bucket, now: nat)
    requires ExactRate(limit) && b.mark <= now
    ensures Refilled(limit, b, now).mark <= now
    ensures NewTokens(limit, Refilled(limit, b, now).mark, now) == 0
  {
    hide ExactRate;
    var r, added := limit.rps, NewTokens(limit, b.mark, now);
    var mark := Refilled(limit, b, now).mark;
    RefillBounds(limit, b, now);
    RefillStep(limit, b.mark, now);
    NoTokensNoWorth(limit);
    assert mark == b.mark + Worth(limit, added);
    assert now * r == mark * r + Elapsed(mark, now) * r;
    DivAtMost(Elapsed(mark, now) * r, NANOS_PER_SECOND, 0);
  }

  lemma ExactPerToken(limit: Limit)
    requires NANOS_PER_SECOND % limit.rps == 0
    ensures NanosPerToken(limit) * limit.rps == NANOS_PER_SECOND
  {
    var r := limit.rps;
    var q := NANOS_PER_SECOND / r;
    assert NANOS_PER_SECOND == q * r;
    assert (q + 1) * r == q * r + r;
    DivAtLeast(NANOS_PER_SECOND + r - 1, r, q);
    DivAtMost(NANOS_PER_SECOND + r - 1, r, q);
  }

  /** With whole tokens each nanosecond, nothing is ever carried. */
  lemma DeadlineIsNear(limit: Limit, mark: nat, from: nat)
    requires ExactRate(limit) && mark < from && NewTokens(limit, mark, from) == 0
    ensures from < mark + NanosPerToken(limit)
    ensures (mark + NanosPerToken(limit) - from) * limit.rps < NANOS_PER_SECOND
  {
    var r, pt := limit.rps, NanosPerToken(limit);
    FreshTokenIff(limit, mark, from);
    if NANOS_PER_SECOND % r == 0 {
      ExactPerToken(limit);
      assert (mark + pt - from) * r == pt * r - (from - mark) * r;
      MulMonotone(1, from - mark, r);
    } else {
      ManyPerNano(limit);
      assert false;
    }
  }

  lemma ManyPerNano(limit: Limit)
    requires limit.rps % NANOS_PER_SECOND == 0
    ensures NanosPerToken(limit) == 1
  {
    var r := limit.rps;
    assert r >= NANOS_PER_SECOND;
    assert 2 * r == r + r;
    DivAtMost(NANOS_PER_SECOND + r - 1, r, 1);
    DivAtLeast(NANOS_PER_SECOND + r - 1, r, 1);
  }

  lemma CarriedBreaksRate(limit: Limit, start: Meter, from: nat)
    requires ExactRate(limit) && start.bucket.tokens <= limit.burst && start.bucket.mark <= from
    requires !NothingCarried(limit, start.bucket, from)
    ensures !KeepsRate(limit, start, from)
  {
    hide ExactRate, NewTokens, Worth, NanosPerToken, Attempted;
    var mark := Refilled(limit, start.bucket, from).mark;
    var t := mark + NanosPerToken(limit);
    SpentNow(limit, start.bucket, from);
    DeadlineIsNear(limit, mark, from);
    var drain := Times(limit.burst, from);
    var times := drain + [t];
    CappedRefill(limit, start.bucket, from);
    Drained(limit, start, from, limit.burst);
    assert times[..|times| - 1] == drain;
    LastIsGranted(limit, RunOn(limit, start, drain), t);
    assert AllFrom(times, from, t);
    assert !KeepsRateOn(limit, start, from, times, t);
  }

  lemma CappedRefill(limit: Limit, b: Bucket, from: nat)
    requires b.tokens <= limit.burst
    ensures Refilled(limit, b, from).tokens <= limit.burst
  {
  }

  lemma LastIsGranted(limit: Limit, m: Meter, t: nat)
    requires t == m.bucket.mark + NanosPerToken(limit)
    ensures Attempted(limit, m, t).grants == m.grants + 1
  {
    hide NewTokens, Worth, NanosPerToken;
    GrantedIff(limit, m.bucket, t);
  }

  // ----- Rounding at inexact rates -----

  /** The whole nanoseconds in the time of a token. */
  function WholeNanos(limit: Limit): nat {
    NANOS_PER_SECOND / limit.rps
  }

  lemma InexactToken(limit: Limit)
    requires NANOS_PER_SECOND % limit.rps != 0
    ensures WholeNanos(limit) * limit.rps < NANOS_PER_SECOND < (WholeNanos(limit) + 1) * limit.rps
    ensures NanosPerToken(limit) == WholeNanos(limit) + 1
  {
    var r, q := limit.rps, WholeNanos(limit);
    DivBounds(NANOS_PER_SECOND, r);
    assert NANOS_PER_SECOND == q * r + NANOS_PER_SECOND % r;
    assert (q + 1) * r == q * r + r && (q + 2) * r == q * r + r + r;
    DivAtLeast(NANOS_PER_SECOND + r - 1, r, q + 1);
    DivAtMost(NANOS_PER_SECOND + r - 1, r, q + 1);
  }

  /** A refill at the deadline moves the mark by a nanosecond less than the time that has passed. */
  lemma DeadlineStep(limit: Limit, mark: nat)
    requires !ExactRate(limit)
    ensures NewTokens(limit, mark, mark + NanosPerToken(limit)) > 0
    ensures Worth(limit, NewTokens(limit, mark, mark + NanosPerToken(limit))) == WholeNanos(limit)
  {
    var r, q := limit.rps, WholeNanos(limit);
    InexactToken(limit);
    var added := NewTokens(limit, mark, mark + NanosPerToken(limit));
    assert added == (q + 1) * r / NANOS_PER_SECOND;
    assert (q + 1) * r == q * r + r;
    if r < NANOS_PER_SECOND {
      DivAtLeast((q + 1) * r, NANOS_PER_SECOND, 1);
      DivAtMost((q + 1) * r, NANOS_PER_SECOND, 1);
    } else {
      DivAtMost(NANOS_PER_SECOND, r, 0);
      assert q == 0 && added == r / NANOS_PER_SECOND;
      DivBounds(r, NANOS_PER_SECOND);
      DivAtLeast(r, NANOS_PER_SECOND, 1);
      assert r == added * NANOS_PER_SECOND + r % NANOS_PER_SECOND;
      DivAtMost(added * NANOS_PER_SECOND, r, 0);
    }
  }

  /** After an attempt the next deadline has not passed. */
  lemma DeadlineIsAhead(limit: Limit, b: Bucket, now: nat)
    requires b.mark <= now
    ensures var mark := Refilled(limit, b, now).mark; mark <= now <= mark + NanosPerToken(limit)
  {
    hide NewTokens, Worth, NanosPerToken, ExactRate;
    var added := NewTokens(limit, b.mark, now);
    RefillBounds(limit, b, now);
    if added == 0 {
      FreshTokenIff(limit, b.mark, now);
    } else {
      RefillStep(limit, b.mark, now);
      PerTokenCovers(limit);
      NoLateMark(limit.rps, b.mark + Worth(limit, added), now, NanosPerToken(limit), Loss(limit));
    }
  }

  lemma PerTokenCovers(limit: Limit)
    ensures NanosPerToken(limit) * limit.rps >= NANOS_PER_SECOND
  {
    var r, pt := limit.rps, NanosPerToken(limit);
    DivBounds(NANOS_PER_SECOND + r - 1, r);
    assert (pt + 1) * r == pt * r + r;
  }

  lemma NoLateMark(rps: nat, mark: nat, now: nat, perToken: nat, loss: nat)
    requires loss <= 1 && perToken * rps >= NANOS_PER_SECOND
    requires now * rps < NANOS_PER_SECOND + (mark + loss) * rps
    ensures now <= mark + perToken
  {
    MulMonotone(mark + loss, mark + 1, rps);
    assert (mark + perToken + 1) * rps == (mark + 1) * rps + perToken * rps;
    LessByProduct(now, mark + perToken + 1, rps);
  }

  lemma LessByProduct(a: nat, b: nat, c: nat)
    requires a * c < b * c
    ensures a < b
  {
    if b <= a {
      MulMonotone(b, a, c);
      assert false;
    }
  }

  /** One attempt now, then one at each deadline. */
  function DeadlineTimes(limit: Limit, from: nat, mark: nat, n: nat): (times: seq<nat>)
    ensures |times| == n + 1
  {
    if n == 0 then [from]
    else DeadlineTimes(limit, from, mark, n - 1) + [mark + (n - 1) * WholeNanos(limit) + NanosPerToken(limit)]
  }

  lemma {:induction false} DeadlinesInOrder(limit: Limit, from: nat, mark: nat, n: nat)
    requires mark <= from <= mark + NanosPerToken(limit)
    ensures AllFrom(DeadlineTimes(limit, from, mark, n), from, mark + n * WholeNanos(limit) + NanosPerToken(limit))
  {
    hide NanosPerToken, WholeNanos;
    var q := WholeNanos(limit);
    if n > 0 {
      DeadlinesInOrder(limit, from, mark, n - 1);
      MulMonotone(n - 1, n, q);
      assert 0 <= (n - 1) * q;
    }
  }

  /** Every attempt at a deadline is granted, and the mark falls behind by a nanosecond each time. */
  lemma {:induction false} DeadlinesGranted(limit: Limit, start: Meter, from: nat, n: nat)
    requires !ExactRate(limit) && start.bucket.mark <= from
    ensures var mark := Refilled(limit, start.bucket, from).mark;
      var m := RunOn(limit, start, DeadlineTimes(limit, from, mark, n));
      m.grants >= start.grants + n && m.bucket.mark == mark + n * WholeNanos(limit)
  {
    hide ExactRate, NanosPerToken, WholeNanos, Attempted, Refilled;
    var mark := Refilled(limit, start.bucket, from).mark;
    var times := DeadlineTimes(limit, from, mark, n);
    if n == 0 {
      assert times == [from] && times[..0] == [];
      AttemptFirst(limit, start, from);
    } else {
      var init := DeadlineTimes(limit, from, mark, n - 1);
      assert times[..n] == init;
      DeadlinesGranted(limit, start, from, n - 1);
      AttemptAtDeadline(limit, RunOn(limit, start, init));
      assert (n - 1) * WholeNanos(limit) + WholeNanos(limit) == n * WholeNanos(limit);
    }
  }

  lemma AttemptFirst(limit: Limit, m: Meter, now: nat)
    ensures Attempted(limit, m, now).grants >= m.grants
    ensures Attempted(limit, m, now).bucket.mark == Refilled(limit, m.bucket, now).mark
  {
    hide NewTokens, Worth;
  }

  lemma AttemptAtDeadline(limit: Limit, m: Meter)
    requires !ExactRate(limit)
    ensures var after := Attempted(limit, m, m.bucket.mark + NanosPerToken(limit));
      after.grants == m.grants + 1 && after.bucket.mark == m.bucket.mark + WholeNanos(limit)
  {
    hide ExactRate, NewTokens, Worth, NanosPerToken, WholeNanos;
    LastIsGranted(limit, m, m.bucket.mark + NanosPerToken(limit));
    DeadlineStep(limit, m.bucket.mark);
  }

  /** So many grants at deadlines that the lost nanoseconds have paid for more than the burst. */
  lemma TooMany(rps: nat, burst: nat, whole: nat, n: nat, grants: nat, nanos: nat)
    requires whole * rps < NANOS_PER_SECOND && n == NANOS_PER_SECOND * burst + rps + 1
    requires grants >= n + 1 && nanos <= n * whole + whole + 1
    ensures NANOS_PER_SECOND * grants > NANOS_PER_SECOND * burst + nanos * rps
  {
    MulMonotone(nanos, n * whole + whole + 1, rps);
    assert (n * whole + whole + 1) * rps == n * (whole * rps) + whole * rps + rps;
    MulMonotone(whole * rps, NANOS_PER_SECOND - 1, n);
    assert n * (whole * rps) <= n * (NANOS_PER_SECOND - 1);
    assert n * (NANOS_PER_SECOND - 1) == n * NANOS_PER_SECOND - n;
  }

  lemma RoundingBreaksRate(limit: Limit, start: Meter, from: nat)
    requires !ExactRate(limit) && start.bucket.mark <= from
    ensures !KeepsRate(limit, start, from)
  {
    hide NewTokens, Worth, NanosPerToken, WholeNanos, RunOn, Refilled, ExactRate;
    var n := NANOS_PER_SECOND * limit.burst + limit.rps + 1;
    var mark, q := Refilled(limit, start.bucket, from).mark, WholeNanos(limit);
    var times := DeadlineTimes(limit, from, mark, n + 1);
    var t := mark + n * q + NanosPerToken(limit);
    NotDividing(limit);
    InexactToken(limit);
    DeadlineIsAhead(limit, start.bucket, from);
    DeadlinesGranted(limit, start, from, n + 1);
    LastDeadline(limit, from, mark, n);
    TooMany(limit.rps, limit.burst, q, n, Grants(start, RunOn(limit, start, times)), t - from);
    assert !KeepsRateOn(limit, start, from, times, t);
  }

  lemma NotDividing(limit: Limit)
    requires !ExactRate(limit)
    ensures NANOS_PER_SECOND % limit.rps != 0
  {
  }

  lemma LastDeadline(limit: Limit, from: nat, mark: nat, n: nat)
    requires mark <= from <= mark + NanosPerToken(limit)
    ensures from <= mark + n * WholeNanos(limit) + NanosPerToken(limit)
    ensures AllFrom(DeadlineTimes(limit, from, mark, n + 1), from, mark + n * WholeNanos(limit) + NanosPerToken(limit))
  {
    hide NanosPerToken, WholeNanos;
    DeadlinesInOrder(limit, from, mark, n);
    assert 0 <= n * WholeNanos(limit);
  }

  // ----- Exactly the states from which every window keeps the rate -----

  /**
   * No window from now on exceeds burst plus rate exactly when the rate is exact and a refill now would leave the
   * bucket short of full or its mark at the present. Otherwise a full bucket can be drained now and be granted one more
   * before the time of a token has passed; and at an inexact rate the rounding of the mark lets attempts at the
   * deadlines run ahead of the rate by any amount.
   */
  lemma KeepsRateIff(limit: Limit, start: Meter, from: nat)
    requires start.bucket.tokens <= limit.burst && start.bucket.mark <= from
    ensures KeepsRate(limit, start, from) <==> ExactRate(limit) && NothingCarried(limit, start.bucket, from)
  {
    hide NothingCarried, ExactRate, AllFrom, KeepsRateOn;
    if !ExactRate(limit) {
      RoundingBreaksRate(limit, start, from);
    } else if NothingCarried(limit, start.bucket, from) {
      forall times, t | from <= t && AllFrom(times, from, t) ensures KeepsRateOn(limit, start, from, times, t) {
        NothingCarriedKeepsRate(limit, start, from, times, t);
      }
    } else {
      CarriedBreaksRate(limit, start, from);
    }
  }

  /** Two grants half a second apart, at one request a second and a burst of one, after a second and a half of rest. */
  lemma OneMoreThanTheRate()
    ensures var limit := RequestRateLimit(1, 1);
      var m := RunOn(limit, Start(limit), [1_500_000_000, 2_000_000_000]);
      && m.grants == 2 && m.refills == 2
      && NANOS_PER_SECOND * m.grants > NANOS_PER_SECOND * limit.burst + (500_000_000 + m.refills) * limit.rps
  {
    var limit: Limit := RequestRateLimit(1, 1);
    var times := [1_500_000_000, 2_000_000_000];
    var first := Attempted(limit, Start(limit), 1_500_000_000);
    assert times[..1] == [1_500_000_000] && times[..1][..0] == [];
    assert RunOn(limit, Start(limit), times[..1]) == first;
    assert first == Meter(Bucket(0, 1_000_000_000), 1, 1);
    assert Attempted(limit, first, 2_000_000_000) == Meter(Bucket(0, 2_000_000_000), 2, 2);
  }
}
