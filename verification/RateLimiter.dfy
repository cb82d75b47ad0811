/**
 The outbound token bucket (src/xmpp/engine.rs, `StanzaRateLimiter`). Tokens and
 times are reals; a clock gives the time of each poll.
 */
module RateLimiter {

  datatype Bucket = Bucket(capacity: real, tokens: real, rate: real, lastRefill: real)

  predicate WellFormed(b: Bucket) {
    0.0 <= b.tokens <= b.capacity && 0.0 <= b.rate
  }

  function Min(x: real, y: real): real { if x <= y then x else y }

  /** `Instant::duration_since` never goes below zero. */
  function Elapsed(from: real, to: real): real { if from <= to then to - from else 0.0 }

  /** Tokens that flow in between two times. */
  function Refill(rate: real, from: real, to: real): real { Elapsed(from, to) * rate }

  lemma RefillNonNegative(rate: real, from: real, to: real)
    requires rate >= 0.0
    ensures Refill(rate, from, to) >= 0.0
  {
    NonNegative(Elapsed(from, to), rate);
  }

  lemma NonNegative(x: real, y: real)
    requires x >= 0.0 && y >= 0.0
    ensures x * y >= 0.0
  {}

  lemma RefillIs(rate: real, from: real, to: real)
    requires from <= to
    ensures Refill(rate, from, to) == rate * (to - from)
  {}

  lemma RefillAdds(rate: real, a: real, b: real, c: real)
    requires a <= b <= c
    ensures Refill(rate, a, b) + Refill(rate, b, c) == Refill(rate, a, c)
  {
    assert (b - a) * rate + (c - b) * rate == (c - a) * rate;
  }

  /** Tokens available to a poll at time `now`. */
  function Refilled(b: Bucket, now: real): real {
    Min(b.tokens + Refill(b.rate, b.lastRefill, now), b.capacity)
  }

  predicate Accepts(b: Bucket, now: real) { Refilled(b, now) >= 1.0 }

  function Polled(b: Bucket, now: real): Bucket {
    b.(tokens := Refilled(b, now) - (if Accepts(b, now) then 1.0 else 0.0), lastRefill := now)
  }

  class StanzaRateLimiter {
    var capacity: real
    var tokens: real
    var rate: real
    var lastRefill: real

    function View(): Bucket
      reads this
    {
      Bucket(capacity, tokens, rate, lastRefill)
    }

    constructor (capacity: real, rate: real, now: real)
      ensures View() == Bucket(capacity, capacity, rate, now)
    {
      this.capacity := capacity;
      this.tokens := capacity;
      this.rate := rate;
      this.lastRefill := now;
    }

    method TryConsume(now: real) returns (ok: bool)
      modifies this
      ensures ok == Accepts(old(View()), now)
      ensures View() == Polled(old(View()), now)
    {
      var elapsed := Elapsed(lastRefill, now);
      tokens := Min(tokens + elapsed * rate, capacity);
      lastRefill := now;
      if tokens >= 1.0 {
        tokens := tokens - 1.0;
        ok := true;
      } else {
        ok := false;
      }
    }
  }

  // ---------------------------------------------------------------------
  // Runs
  // ---------------------------------------------------------------------

  /** The time of poll `n`. */
  type Clock = nat -> real

  /** Which polls are accepted. */
  type Schedule = nat -> bool

  ghost predicate Monotone(clock: Clock, start: real) {
    start <= clock(0) && forall i: nat, j: nat | i <= j :: clock(i) <= clock(j)
  }

  /** The bucket after the first `n` polls. */
  function BucketAt(b: Bucket, clock: Clock, n: nat): Bucket {
    if n == 0 then b else Polled(BucketAt(b, clock, n - 1), clock(n - 1))
  }

  /** The decisions the limiter takes. */
  function Greedy(b: Bucket, clock: Clock): Schedule {
    (n: nat) => Accepts(BucketAt(b, clock, n), clock(n))
  }

  /** Polls accepted among those numbered from `i` up to, not including, `j`. */
  function Count(d: Schedule, i: nat, j: nat): (c: nat)
    ensures i <= j ==> c <= j - i
  {
    if j <= i then 0 else Count(d, i, j - 1) + if d(j - 1) then 1 else 0
  }

  /** The published limit: a burst of `capacity`, then `rate` a second, in every window. */
  ghost predicate MeetsRate(clock: Clock, d: Schedule, capacity: real, rate: real, n: nat) {
    forall i: nat, j: nat | i < j <= n :: KeepsRate(clock, d, capacity, rate, i, j)
  }

  predicate KeepsRate(clock: Clock, d: Schedule, capacity: real, rate: real, i: nat, j: nat)
    requires i < j
  {
    Count(d, i, j) as real <= capacity + rate * (clock(j - 1) - clock(i))
  }

  lemma {:induction false} BucketFacts(b: Bucket, clock: Clock, n: nat)
    requires WellFormed(b) && Monotone(clock, b.lastRefill)
    ensures var s := BucketAt(b, clock, n);
      && WellFormed(s) && s.capacity == b.capacity && s.rate == b.rate
      && s.lastRefill == (if n == 0 then b.lastRefill else clock(n - 1))
      && s.lastRefill <= clock(n)
  {
    hide Refill;
    if n > 0 {
      BucketFacts(b, clock, n - 1);
      var s := BucketAt(b, clock, n - 1);
      RefillNonNegative(s.rate, s.lastRefill, clock(n - 1));
    }
  }

  /** What was accepted in a window and what is left never exceed the burst and the refill. */
  lemma {:induction false} WindowBudget(b: Bucket, clock: Clock, i: nat, j: nat)
    requires WellFormed(b) && Monotone(clock, b.lastRefill)
    requires i < j
    ensures Count(Greedy(b, clock), i, j) as real + BucketAt(b, clock, j).tokens
         <= b.capacity + Refill(b.rate, clock(i), clock(j - 1))
  {
    hide Refill, Refilled, BucketAt, Count, Greedy;
    BucketFacts(b, clock, j - 1);
    CountStep(b, clock, i, j);
    RefilledAtMost(BucketAt(b, clock, j - 1), clock(j - 1));
    if j > i + 1 {
      WindowBudget(b, clock, i, j - 1);
      RefillAdds(b.rate, clock(i), clock(j - 2), clock(j - 1));
    } else {
      CountNone(Greedy(b, clock), i);
      RefillNonNegative(b.rate, clock(i), clock(i));
    }
  }

  lemma {:induction false} RefilledAtMost(b: Bucket, now: real)
    ensures Refilled(b, now) <= b.capacity
    ensures Refilled(b, now) <= b.tokens + Refill(b.rate, b.lastRefill, now)
  {}

  lemma {:induction false} CountNone(d: Schedule, i: nat)
    ensures Count(d, i, i) == 0
  {}

  /** One more poll adds one to the count and takes one from the tokens, or neither. */
  lemma {:induction false} CountStep(b: Bucket, clock: Clock, i: nat, j: nat)
    requires i < j
    ensures Count(Greedy(b, clock), i, j) as real + BucketAt(b, clock, j).tokens
         == Count(Greedy(b, clock), i, j - 1) as real + Refilled(BucketAt(b, clock, j - 1), clock(j - 1))
  {
    hide BucketAt, Greedy, Count, Polled, Accepts, Refilled;
    CountLast(Greedy(b, clock), i, j);
    BucketLast(b, clock, j);
    GreedyAt(b, clock, j - 1);
    PollTakesOne(BucketAt(b, clock, j - 1), clock(j - 1));
  }

  lemma {:induction false} BucketLast(b: Bucket, clock: Clock, n: nat)
    requires n > 0
    ensures BucketAt(b, clock, n) == Polled(BucketAt(b, clock, n - 1), clock(n - 1))
  {
    hide Polled;
  }

  lemma GreedyAt(b: Bucket, clock: Clock, n: nat)
    ensures Greedy(b, clock)(n) == Accepts(BucketAt(b, clock, n), clock(n))
  {
    hide Accepts, BucketAt;
  }

  lemma {:induction false} CountLast(d: Schedule, i: nat, j: nat)
    requires i < j
    ensures Count(d, i, j) == Count(d, i, j - 1) + if d(j - 1) then 1 else 0
  {}

  lemma PollTakesOne(b: Bucket, now: real)
    ensures Polled(b, now).tokens + (if Accepts(b, now) then 1.0 else 0.0) == Refilled(b, now)
  {
    hide Refilled;
  }

  /** In every window, the limiter accepts at most the burst plus the refill. */
  lemma {:induction false} LimiterMeetsRate(b: Bucket, clock: Clock, n: nat)
    requires WellFormed(b) && Monotone(clock, b.lastRefill)
    ensures MeetsRate(clock, Greedy(b, clock), b.capacity, b.rate, n)
  {
    hide KeepsRate;
    forall i: nat, j: nat | i < j <= n
      ensures KeepsRate(clock, Greedy(b, clock), b.capacity, b.rate, i, j)
    {
      WindowMeetsRate(b, clock, i, j);
    }
  }

  lemma WindowMeetsRate(b: Bucket, clock: Clock, i: nat, j: nat)
    requires WellFormed(b) && Monotone(clock, b.lastRefill) && i < j
    ensures KeepsRate(clock, Greedy(b, clock), b.capacity, b.rate, i, j)
  {
    hide Refill, Count, Greedy, BucketAt;
    WindowBudget(b, clock, i, j);
    BucketFacts(b, clock, j);
    RefillIs(b.rate, clock(i), clock(j - 1));
    hide Monotone;
  }

  // ---------------------------------------------------------------------
  // Optimality
  // ---------------------------------------------------------------------

  /** The level of a full bucket that is drained as schedule `d` says, even below zero. */
  function Level(b: Bucket, clock: Clock, d: Schedule, n: nat): real {
    if n == 0 then b.capacity
    else
      var since := if n == 1 then b.lastRefill else clock(n - 2);
      Min(Level(b, clock, d, n - 1) + Refill(b.rate, since, clock(n - 1)), b.capacity)
      - if d(n - 1) then 1.0 else 0.0
  }

  /** The level is what some window leaves over: the one since the bucket was last full. */
  lemma {:induction false} LevelIsAWindow(b: Bucket, clock: Clock, d: Schedule, n: nat) returns (i: nat)
    requires WellFormed(b) && Monotone(clock, b.lastRefill)
    requires n > 0
    ensures i < n
    ensures Level(b, clock, d, n) == b.capacity + Refill(b.rate, clock(i), clock(n - 1)) - Count(d, i, n) as real
  {
    RefillOfNoTime(b.rate, clock(n - 1));
    hide Refill;
    i := n - 1;
    assert Count(d, n - 1, n - 1) == 0;
    if n == 1 {
      RefillNonNegative(b.rate, b.lastRefill, clock(0));
    } else if Level(b, clock, d, n - 1) + Refill(b.rate, clock(n - 2), clock(n - 1)) <= b.capacity {
      i := LevelIsAWindow(b, clock, d, n - 1);
      RefillAdds(b.rate, clock(i), clock(n - 2), clock(n - 1));
    }
  }

  lemma RefillOfNoTime(rate: real, now: real)
    ensures Refill(rate, now, now) == 0.0
  {}

  lemma {:induction false} LevelNonNegative(b: Bucket, clock: Clock, d: Schedule, n: nat)
    requires WellFormed(b) && Monotone(clock, b.lastRefill)
    requires MeetsRate(clock, d, b.capacity, b.rate, n)
    ensures Level(b, clock, d, n) >= 0.0
  {
    hide Refill, Count, KeepsRate;
    if n > 0 {
      hide Level;
      var i := LevelIsAWindow(b, clock, d, n);
      assert KeepsRate(clock, d, b.capacity, b.rate, i, n);
      WindowKept(clock, d, b.capacity, b.rate, i, n);
    }
  }

  lemma WindowKept(clock: Clock, d: Schedule, capacity: real, rate: real, i: nat, j: nat)
    requires i < j && clock(i) <= clock(j - 1) && KeepsRate(clock, d, capacity, rate, i, j)
    ensures Count(d, i, j) as real <= capacity + Refill(rate, clock(i), clock(j - 1))
  {
    hide Refill, Count;
    RefillIs(rate, clock(i), clock(j - 1));
  }

  /** A schedule that is behind by some stanzas has at most that many more tokens. */
  lemma {:induction false} Exchange(b: Bucket, clock: Clock, d: Schedule, n: nat)
    requires WellFormed(b) && b.tokens == b.capacity && Monotone(clock, b.lastRefill)
    requires MeetsRate(clock, d, b.capacity, b.rate, n)
    ensures Count(d, 0, n) <= Count(Greedy(b, clock), 0, n)
    ensures Level(b, clock, d, n)
         <= BucketAt(b, clock, n).tokens + (Count(Greedy(b, clock), 0, n) - Count(d, 0, n)) as real
  {
    hide Refill;
    if n > 0 {
      assert MeetsRate(clock, d, b.capacity, b.rate, n - 1);
      Exchange(b, clock, d, n - 1);
      BucketFacts(b, clock, n - 1);
      LevelNonNegative(b, clock, d, n);
      CountStep(b, clock, 0, n);
    }
  }

  /**
   Greedy is optimal: started full, after any number of polls the limiter has
   accepted at least as many stanzas as any schedule of the same polls that keeps
   the published limit in every window.
   */
  lemma {:induction false} GreedyIsOptimal(b: Bucket, clock: Clock, d: Schedule, n: nat)
    requires WellFormed(b) && b.tokens == b.capacity && Monotone(clock, b.lastRefill)
    requires MeetsRate(clock, d, b.capacity, b.rate, n)
    ensures forall k | 0 <= k <= n :: Count(d, 0, k) <= Count(Greedy(b, clock), 0, k)
  {
    forall k | 0 <= k <= n ensures Count(d, 0, k) <= Count(Greedy(b, clock), 0, k) {
      assert MeetsRate(clock, d, b.capacity, b.rate, k);
      Exchange(b, clock, d, k);
    }
  }

  /** A denied poll costs nothing: the next poll finds what it would have found without it. */
  lemma DeniedPollIsFree(b: Bucket, now: real, later: real)
    requires WellFormed(b) && b.lastRefill <= now <= later
    requires !Accepts(b, now)
    ensures Polled(Polled(b, now), later) == Polled(b, later)
    ensures Accepts(Polled(b, now), later) == Accepts(b, later)
  {
    RefillNonNegative(b.rate, b.lastRefill, now);
    RefillNonNegative(b.rate, now, later);
    RefillAdds(b.rate, b.lastRefill, now, later);
    hide Refill;
  }

  /** No time brings no tokens: a poll at the time of the last one, or before it, uses what is there. */
  lemma PollWithoutTime(b: Bucket, now: real)
    requires WellFormed(b) && now <= b.lastRefill
    ensures Polled(b, now) == b.(tokens := if b.tokens >= 1.0 then b.tokens - 1.0 else b.tokens, lastRefill := now)
    ensures Accepts(b, now) <==> b.tokens >= 1.0
  {
    assert Elapsed(b.lastRefill, now) * b.rate == 0.0;
  }

  /** Nobody starves: a bucket that can hold a token accepts once it has had time to refill one. */
  lemma AcceptsAfterOneRefill(b: Bucket, now: real)
    requires WellFormed(b) && b.capacity >= 1.0 && b.rate > 0.0
    requires now >= b.lastRefill + 1.0 / b.rate
    ensures Accepts(b, now)
  {
    var elapsed := now - b.lastRefill;
    assert 1.0 / b.rate >= 0.0 && (1.0 / b.rate) * b.rate == 1.0;
    NonNegative(elapsed - 1.0 / b.rate, b.rate);
    assert elapsed * b.rate == (elapsed - 1.0 / b.rate) * b.rate + (1.0 / b.rate) * b.rate;
  }
}
