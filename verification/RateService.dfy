/**
 * What the rate limiter grants at least (src/liteclient/rate_limit.rs): tokens left over and tokens newly due are both
 * there for the next request, and only a full bucket turns time away.
 */
module RateService {
  import opened RateLimit
  import opened RateRuns
  import opened RateWindows
  import opened Wrappers

  /** The whole tokens due after a time, at so many a second. */
  function Due(elapsed: nat, rps: nat): nat {
    elapsed * rps / 1_000_000_000
  }

  /** The tokens at hand at a moment: those left, and those due since the mark, up to the burst. */
  function AtHand(limit: Limit, b: Bucket, now: nat): nat
    requires b.mark <= now
  {
    Min(limit.burst, b.tokens + Due(now - b.mark, limit.rps))
  }

  /** One attempt grants exactly when a token is at hand, keeps the others, and takes only the time all are worth. */
  lemma OneAttempt(limit: Limit, m: Meter, now: nat)
    requires m.bucket.mark <= now && m.bucket.tokens <= limit.burst
    ensures var after, hand := Attempted(limit, m, now), AtHand(limit, m.bucket, now);
      && after.grants == m.grants + (if hand > 0 then 1 else 0)
      && after.grants - m.grants + after.bucket.tokens == hand
      && m.bucket.mark <= after.bucket.mark <= now
      && (after.bucket.mark - m.bucket.mark) * limit.rps
         <= 1_000_000_000 * Due(now - m.bucket.mark, limit.rps)
  {
    hide Worth;
    RefillBounds(limit, m.bucket, now);
    assert Elapsed(m.bucket.mark, now) == now - m.bucket.mark;
    NoTokensNoWorth(limit);
  }

  // ----- Many attempts at one moment -----

  lemma {:induction false} BurstServed(limit: Limit, start: Meter, now: nat, n: nat)
    requires start.bucket.mark <= now && start.bucket.tokens <= limit.burst
    ensures var m, hand := RunOn(limit, start, Times(n, now)), AtHand(limit, start.bucket, now);
      && m.bucket.mark <= now && m.bucket.tokens <= limit.burst && start.grants <= m.grants <= start.grants + n
      && (n == 0 ==> m == start)
      && (n > 0 ==> Grants(start, m) + m.bucket.tokens >= hand)
      && (Grants(start, m) == n || Grants(start, m) >= hand)
      && (n > 0 && ExactRate(limit) ==>
            Grants(start, m) + m.bucket.tokens == hand && NewTokens(limit, m.bucket.mark, now) == 0)
  {
    hide Attempted, ExactRate, AtHand;
    if n == 0 {
      assert Times(0, now) == [];
    } else {
      assert Times(n, now)[..n - 1] == Times(n - 1, now);
      BurstServed(limit, start, now, n - 1);
      BurstStep(limit, RunOn(limit, start, Times(n - 1, now)), now);
    }
  }

  lemma BurstStep(limit: Limit, m: Meter, now: nat)
    requires m.bucket.mark <= now && m.bucket.tokens <= limit.burst
    ensures var after, hand := Attempted(limit, m, now), AtHand(limit, m.bucket, now);
      && m.bucket.tokens <= hand <= limit.burst
      && after.grants == m.grants + (if hand > 0 then 1 else 0)
      && after.grants - m.grants + after.bucket.tokens == hand
      && after.bucket.mark <= now
      && (NewTokens(limit, m.bucket.mark, now) == 0 ==> hand == m.bucket.tokens)
      && (ExactRate(limit) ==> NewTokens(limit, after.bucket.mark, now) == 0)
  {
    hide ExactRate;
    OneAttempt(limit, m, now);
    assert Elapsed(m.bucket.mark, now) == now - m.bucket.mark;
    if ExactRate(limit) {
      SpentNow(limit, m.bucket, now);
    }
  }

  /**
   * Of `n` attempts at one moment at least as many are granted as there are tokens at hand, counting those left over
   * from before; at exact rates exactly that many.
   */
  lemma BurstIsServed(limit: Limit, start: Meter, now: nat, n: nat)
    requires start.bucket.mark <= now && start.bucket.tokens <= limit.burst
    ensures var granted := RunOn(limit, start, Times(n, now)).grants - start.grants;
      var hand := Min(limit.burst, start.bucket.tokens + Due(now - start.bucket.mark, limit.rps));
      && granted >= Min(n, hand)
      && (ExactRate(limit) ==> granted == Min(n, hand))
  {
    hide Attempted, ExactRate, NewTokens, RunOn, Times, AtHand, Grants;
    BurstServed(limit, start, now, n);
    var m, hand := RunOn(limit, start, Times(n, now)), AtHand(limit, start.bucket, now);
    assert hand == Min(limit.burst, start.bucket.tokens + Due(now - start.bucket.mark, limit.rps)) by {
      HandIs(limit, start.bucket, now);
    }
    GrantsAre(start, m);
    BurstBounds(Grants(start, m), m.bucket.tokens, hand, n);
  }

  lemma HandIs(limit: Limit, b: Bucket, now: nat)
    requires b.mark <= now
    ensures AtHand(limit, b, now) == Min(limit.burst, b.tokens + Due(now - b.mark, limit.rps))
  {
  }

  lemma GrantsAre(start: Meter, m: Meter)
    requires start.grants <= m.grants
    ensures Grants(start, m) == m.grants - start.grants
  {
  }

  lemma BurstBounds(granted: nat, tokens: nat, hand: nat, n: nat)
    requires granted <= n && (granted == n || granted >= hand)
    ensures granted >= Min(n, hand)
    ensures granted + tokens == hand || n == 0 ==> granted == Min(n, hand)
  {
  }

  // ----- Whole runs -----

  /** Attempts in the order of their times, none before the mark. */
  predicate InOrder(times: seq<nat>, from: nat) {
    && (forall i :: 0 <= i < |times| ==> from <= times[i])
    && (forall i, j :: 0 <= i < j < |times| ==> times[i] <= times[j])
  }

  /** The state before attempt `i`. */
  function Before(limit: Limit, start: Meter, times: seq<nat>, i: nat): Meter
    requires i <= |times|
  {
    RunOn(limit, start, times[..i])
  }

  /** Whether attempt `i` found the bucket full. */
  ghost predicate FoundFull(limit: Limit, start: Meter, times: seq<nat>, i: nat)
    requires i < |times|
  {
    var before, after := Before(limit, start, times, i), Before(limit, start, times, i + 1);
    before.grants <= after.grants && after.grants - before.grants + after.bucket.tokens == limit.burst
  }

  /**
   * What is due since attempt `i` found the bucket full has been granted or is still there, as a token or as time
   * since the mark.
   */
  ghost predicate DueSince(limit: Limit, start: Meter, times: seq<nat>, i: nat, now: nat)
    requires i < |times|
  {
    var before, m := Before(limit, start, times, i), RunOn(limit, start, times);
    && FoundFull(limit, start, times, i) && before.grants <= m.grants
    && 1_000_000_000 * (m.grants - before.grants + m.bucket.tokens) + now * limit.rps
       >= 1_000_000_000 * limit.burst + (now - times[i]) * limit.rps + m.bucket.mark * limit.rps
  }

  /** The same since the start. */
  ghost predicate DueFromStart(limit: Limit, start: Meter, times: seq<nat>) {
    var m := RunOn(limit, start, times);
    && start.grants <= m.grants
    && 1_000_000_000 * (m.grants - start.grants + m.bucket.tokens) + start.bucket.mark * limit.rps
       >= 1_000_000_000 * start.bucket.tokens + m.bucket.mark * limit.rps
  }

  lemma {:induction false} RunIsInBounds(limit: Limit, start: Meter, times: seq<nat>, now: nat)
    requires start.bucket.tokens <= limit.burst && start.bucket.mark <= now
    requires InOrder(times, start.bucket.mark) && AllBy(times, now)
    ensures var m := RunOn(limit, start, times);
      m.bucket.mark <= now && m.bucket.tokens <= limit.burst && start.grants <= m.grants
    ensures times != [] ==> RunOn(limit, start, times).bucket.mark <= times[|times| - 1]
  {
    hide Attempted;
    if times != [] {
      var init, last := times[..|times| - 1], times[|times| - 1];
      RunIsInBounds(limit, start, init, last);
      BurstStep(limit, RunOn(limit, start, init), last);
    }
  }

  lemma DueStep(
    rps: nat, granted: nat, tokens: nat, mark: nat, grantedAfter: nat, tokensAfter: nat, markAfter: nat, added: nat)
    requires grantedAfter + tokensAfter == granted + tokens + added
    requires mark <= markAfter && (markAfter - mark) * rps <= 1_000_000_000 * added
    ensures 1_000_000_000 * (grantedAfter + tokensAfter) + mark * rps
      >= 1_000_000_000 * (granted + tokens) + markAfter * rps
  {
    assert markAfter * rps == mark * rps + (markAfter - mark) * rps;
  }

  /** Only a full bucket turns time away: all that is due since it was last full, or the start, is accounted for. */
  lemma {:induction false} NothingIsLost(limit: Limit, start: Meter, times: seq<nat>, now: nat)
    returns (full: Option<nat>)
    requires start.bucket.tokens <= limit.burst && start.bucket.mark <= now
    requires InOrder(times, start.bucket.mark) && AllBy(times, now)
    ensures match full
      case None => DueFromStart(limit, start, times)
      case Some(i) => i < |times| && DueSince(limit, start, times, i, now)
  {
    hide Attempted, AtHand, DueSince, DueFromStart, RunOn;
    if times == [] {
      full := None;
      DueAtStart(limit, start);
    } else {
      var init, last := times[..|times| - 1], times[|times| - 1];
      full := NothingIsLost(limit, start, init, now);
      RunIsInBounds(limit, start, init, last);
      var m := RunOn(limit, start, init);
      if AtHand(limit, m.bucket, last) == limit.burst {
        full := Some(|times| - 1);
        FullNow(limit, start, times, now);
      } else if full == None {
        StillDueFromStart(limit, start, times);
      } else {
        StillDueSince(limit, start, times, full.value, now);
      }
    }
  }

  lemma DueAtStart(limit: Limit, start: Meter)
    ensures DueFromStart(limit, start, [])
  {
  }

  /** One attempt on a bucket that it does not find full. */
  lemma DueAfterAttempt(limit: Limit, m: Meter, last: nat, from: nat)
    requires m.bucket.mark <= last && m.bucket.tokens <= limit.burst && from <= m.grants
    requires AtHand(limit, m.bucket, last) != limit.burst
    ensures var after := Attempted(limit, m, last);
      && from <= after.grants
      && 1_000_000_000 * (after.grants - from + after.bucket.tokens) + m.bucket.mark * limit.rps
         >= 1_000_000_000 * (m.grants - from + m.bucket.tokens) + after.bucket.mark * limit.rps
  {
    hide Attempted, AtHand;
    var after := Attempted(limit, m, last);
    OneAttempt(limit, m, last);
    NotFull(limit, m.bucket, last);
    var added := Due(last - m.bucket.mark, limit.rps);
    DueStep(limit.rps, m.grants - from, m.bucket.tokens, m.bucket.mark,
            after.grants - from, after.bucket.tokens, after.bucket.mark, added);
  }

  lemma StillDueFromStart(limit: Limit, start: Meter, times: seq<nat>)
    requires times != []
    requires DueFromStart(limit, start, times[..|times| - 1])
    requires var last, m := times[|times| - 1], RunOn(limit, start, times[..|times| - 1]);
      m.bucket.mark <= last && m.bucket.tokens <= limit.burst && AtHand(limit, m.bucket, last) != limit.burst
    ensures DueFromStart(limit, start, times)
  {
    hide Attempted, AtHand;
    DueAfterAttempt(limit, RunOn(limit, start, times[..|times| - 1]), times[|times| - 1], start.grants);
  }

  lemma StillDueSince(limit: Limit, start: Meter, times: seq<nat>, i: nat, now: nat)
    requires i + 1 < |times|
    requires DueSince(limit, start, times[..|times| - 1], i, now)
    requires var last, m := times[|times| - 1], RunOn(limit, start, times[..|times| - 1]);
      m.bucket.mark <= last && m.bucket.tokens <= limit.burst && AtHand(limit, m.bucket, last) != limit.burst
    ensures DueSince(limit, start, times, i, now)
  {
    hide Attempted, AtHand;
    var init, last := times[..|times| - 1], times[|times| - 1];
    SamePrefix(limit, start, times, i);
    SamePrefix(limit, start, times, i + 1);
    DueAfterAttempt(limit, RunOn(limit, start, init), last, Before(limit, start, times, i).grants);
    hide Before;
    assert RunOn(limit, start, times) == Attempted(limit, RunOn(limit, start, init), last);
  }

  lemma SamePrefix(limit: Limit, start: Meter, times: seq<nat>, i: nat)
    requires i < |times|
    ensures Before(limit, start, times, i) == Before(limit, start, times[..|times| - 1], i)
  {
    hide RunOn;
    assert times[..i] == times[..|times| - 1][..i];
  }

  lemma NotFull(limit: Limit, b: Bucket, now: nat)
    requires b.mark <= now && AtHand(limit, b, now) != limit.burst
    ensures AtHand(limit, b, now) == b.tokens + Due(now - b.mark, limit.rps)
  {
  }

  lemma FullNow(limit: Limit, start: Meter, times: seq<nat>, now: nat)
    requires times != [] && AllBy(times, now)
    requires var last, m := times[|times| - 1], RunOn(limit, start, times[..|times| - 1]);
      m.bucket.mark <= last && m.bucket.tokens <= limit.burst && AtHand(limit, m.bucket, last) == limit.burst
    ensures DueSince(limit, start, times, |times| - 1, now)
  {
    hide Attempted, AtHand;
    var i := |times| - 1;
    OneAttempt(limit, RunOn(limit, start, times[..i]), times[i]);
    assert times[..i + 1] == times;
    var mark := RunOn(limit, start, times).bucket.mark;
    MulMonotone(mark, times[i], limit.rps);
    assert now * limit.rps == (now - times[i]) * limit.rps + times[i] * limit.rps;
  }

  /** The attempts that were granted since attempt `i`, itself included. */
  function GrantedSince(limit: Limit, start: Meter, times: seq<nat>, i: nat): int
    requires i <= |times|
  {
    RunOn(limit, start, times).grants - Before(limit, start, times, i).grants
  }

  /**
   * A request is refused only when all that was due has been granted: counted from the last time the bucket was found
   * full, the grants are within one of burst plus rate; counted from the start, within one of the tokens then left plus
   * rate. So between refusals and full buckets the limiter serves neither more nor less than its rate.
   */
  lemma RefusedOnlyWhenSpent(limit: Limit, start: Meter, times: seq<nat>, now: nat) returns (full: Option<nat>)
    requires start.bucket.tokens <= limit.burst && start.bucket.mark <= now
    requires InOrder(times + [now], start.bucket.mark)
    requires RunOn(limit, start, times + [now]).grants == RunOn(limit, start, times).grants
    ensures match full
      case None =>
        1_000_000_000 * (GrantedSince(limit, start, times, 0) + 1)
        > 1_000_000_000 * start.bucket.tokens + (now - start.bucket.mark) * limit.rps
      case Some(i) =>
        i < |times|
        && 1_000_000_000 * (GrantedSince(limit, start, times, i) + 1)
           > 1_000_000_000 * limit.burst + (now - times[i]) * limit.rps
  {
    hide Attempted, AtHand, InOrder, AllBy, RunOn, DueSince, DueFromStart;
    ThenRefused(limit, start, times, now);
    full := NothingIsLost(limit, start, times, now);
    if full == None {
      SpentFromStart(limit, start, times, now);
    } else {
      SpentSince(limit, start, times, full.value, now);
    }
  }

  lemma ThenRefused(limit: Limit, start: Meter, times: seq<nat>, now: nat)
    requires start.bucket.tokens <= limit.burst && start.bucket.mark <= now
    requires InOrder(times + [now], start.bucket.mark)
    requires RunOn(limit, start, times + [now]).grants == RunOn(limit, start, times).grants
    ensures AllBy(times, now) && InOrder(times, start.bucket.mark)
    ensures var b := RunOn(limit, start, times).bucket;
      b.tokens == 0 && b.mark <= now && (now - b.mark) * limit.rps < 1_000_000_000
  {
    hide Attempted, AtHand;
    InOrderBefore(start.bucket.mark, times, now);
    RunIsInBounds(limit, start, times, now);
    var m := RunOn(limit, start, times);
    assert RunOn(limit, start, times + [now]) == Attempted(limit, m, now) by {
      assert (times + [now])[..|times|] == times;
    }
    hide RunOn, InOrder, AllBy;
    OneAttempt(limit, m, now);
    NothingAtHand(limit, m.bucket, now);
  }

  lemma InOrderBefore(from: nat, times: seq<nat>, now: nat)
    requires InOrder(times + [now], from)
    ensures AllBy(times, now) && InOrder(times, from)
  {
    var all := times + [now];
    assert forall i :: 0 <= i < |times| ==> times[i] == all[i];
    assert all[|times|] == now;
  }

  lemma SpentFromStart(limit: Limit, start: Meter, times: seq<nat>, now: nat)
    requires start.bucket.mark <= now && DueFromStart(limit, start, times)
    requires var b := RunOn(limit, start, times).bucket;
      b.tokens == 0 && b.mark <= now && (now - b.mark) * limit.rps < 1_000_000_000
    ensures 1_000_000_000 * (GrantedSince(limit, start, times, 0) + 1)
      > 1_000_000_000 * start.bucket.tokens + (now - start.bucket.mark) * limit.rps
  {
    hide RunOn, Before;
    BeforeAll(limit, start, times);
    var mark := RunOn(limit, start, times).bucket.mark;
    SplitTime(limit.rps, start.bucket.mark, now);
    SplitTime(limit.rps, mark, now);
  }

  lemma BeforeAll(limit: Limit, start: Meter, times: seq<nat>)
    ensures Before(limit, start, times, 0) == start
  {
    assert times[..0] == [];
  }

  lemma SplitTime(rps: nat, mark: nat, now: nat)
    requires mark <= now
    ensures (now - mark) * rps + mark * rps == now * rps
  {
  }

  lemma SpentSince(limit: Limit, start: Meter, times: seq<nat>, i: nat, now: nat)
    requires i < |times| && DueSince(limit, start, times, i, now)
    requires var b := RunOn(limit, start, times).bucket;
      b.tokens == 0 && b.mark <= now && (now - b.mark) * limit.rps < 1_000_000_000
    ensures 1_000_000_000 * (GrantedSince(limit, start, times, i) + 1)
      > 1_000_000_000 * limit.burst + (now - times[i]) * limit.rps
  {
    hide RunOn, FoundFull, Before;
    var mark := RunOn(limit, start, times).bucket.mark;
    SplitTime(limit.rps, mark, now);
  }

  lemma NothingAtHand(limit: Limit, b: Bucket, now: nat)
    requires b.mark <= now && AtHand(limit, b, now) == 0
    ensures b.tokens == 0 && (now - b.mark) * limit.rps < 1_000_000_000
  {
    DivBounds((now - b.mark) * limit.rps, 1_000_000_000);
  }
}
