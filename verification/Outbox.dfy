/**
 The outbox of the session loop (src/xmpp/engine.rs, `run_session_loop`): stanzas
 are pushed at the back, and each pass of the loop drains the front through the
 rate limiter until it is denied.
 */
module Outbox {
  import opened RateLimiter

  const BURST: real := 30.0
  const STANZAS_PER_SECOND: real := 10.0

  datatype Sent<S> = Sent(stanza: S, time: real)

  /** `polls` counts how often the clock has been read; the next poll is at `clock(polls)`. */
  datatype Session<S> = Session(outbox: seq<S>, bucket: Bucket, sent: seq<Sent<S>>, polls: nat)

  function Drained<S>(s: Session<S>, clock: Clock): Session<S>
    decreases |s.outbox|
  {
    if s.outbox == [] then s
    else
      var now := clock(s.polls);
      var polled := s.(bucket := Polled(s.bucket, now), polls := s.polls + 1);
      if !Accepts(s.bucket, now) then polled
      else Drained(polled.(outbox := s.outbox[1..], sent := s.sent + [Sent(s.outbox[0], now)]), clock)
  }

  class SessionLoop<S> {
    var outbox: seq<S>
    const limiter: StanzaRateLimiter
    var sent: seq<Sent<S>>
    var polls: nat

    function View(): Session<S>
      reads this, limiter
    {
      Session(outbox, limiter.View(), sent, polls)
    }

    constructor (now: real)
      ensures View() == Started(now) && fresh(limiter)
    {
      outbox := [];
      limiter := new StanzaRateLimiter(BURST, STANZAS_PER_SECOND, now);
      sent := [];
      polls := 0;
    }

    method Enqueue(stanza: S)
      modifies this
      ensures View() == old(View()).(outbox := old(outbox) + [stanza])
    {
      outbox := outbox + [stanza];
    }

    /** One pass of the loop; a denied stanza goes back to the front. */
    method Drain(clock: Clock)
      modifies this, limiter
      ensures View() == Drained(old(View()), clock)
    {
      hide Accepts, Polled;
      while outbox != []
        invariant Drained(View(), clock) == Drained(old(View()), clock)
        decreases |outbox|
      {
        var stanza := outbox[0];
        outbox := outbox[1..];
        var now := clock(polls);
        polls := polls + 1;
        var ok := limiter.TryConsume(now);
        if !ok {
          outbox := [stanza] + outbox;
          break;
        }
        sent := sent + [Sent(stanza, now)];
      }
    }
  }

  // ---------------------------------------------------------------------
  // Runs
  // ---------------------------------------------------------------------

  datatype Event<S> = Enqueue(stanza: S) | DrainPass

  function Started<S>(now: real): Session<S> {
    Session([], Bucket(BURST, BURST, STANZAS_PER_SECOND, now), [], 0)
  }

  function After<S>(s: Session<S>, event: Event<S>, clock: Clock): Session<S> {
    match event
    case Enqueue(stanza) => s.(outbox := s.outbox + [stanza])
    case DrainPass => Drained(s, clock)
  }

  function Run<S>(start: real, events: seq<Event<S>>, clock: Clock): Session<S> {
    if events == [] then Started(start)
    else After(Run(start, events[..|events| - 1], clock), events[|events| - 1], clock)
  }

  function Stanzas<S>(sent: seq<Sent<S>>): (r: seq<S>)
    ensures |r| == |sent| && forall k | 0 <= k < |sent| :: r[k] == sent[k].stanza
  {
    seq(|sent|, k requires 0 <= k < |sent| => sent[k].stanza)
  }

  function Enqueued<S>(events: seq<Event<S>>): seq<S> {
    if events == [] then []
    else
      var n := |events| - 1;
      Enqueued(events[..n]) + match events[n] case Enqueue(stanza) => [stanza] case DrainPass => []
  }

  // ---------------------------------------------------------------------
  // What every pass keeps
  // ---------------------------------------------------------------------

  lemma {:induction false} DrainConserves<S>(s: Session<S>, clock: Clock)
    ensures var r := Drained(s, clock); Stanzas(r.sent) + r.outbox == Stanzas(s.sent) + s.outbox
    decreases |s.outbox|
  {
    if s.outbox != [] && Accepts(s.bucket, clock(s.polls)) {
      var now := clock(s.polls);
      var sent := s.sent + [Sent(s.outbox[0], now)];
      DrainConserves(Session(s.outbox[1..], Polled(s.bucket, now), sent, s.polls + 1), clock);
      assert Stanzas(sent) == Stanzas(s.sent) + [s.outbox[0]];
      assert s.outbox == [s.outbox[0]] + s.outbox[1..];
    }
  }

  /**
   The session has polled the limiter `polls` times, sent one stanza for each
   accepted poll, and every stretch of sent stanzas fits the burst and the refill.
   */
  ghost predicate Keeps<S>(s: Session<S>, start: Bucket, clock: Clock) {
    && s.bucket == BucketAt(start, clock, s.polls)
    && |s.sent| == Count(Greedy(start, clock), 0, s.polls)
    && (forall i | 0 <= i < |s.sent| :: Fits(s, i))
    && RateKept(s.sent, start.capacity, start.rate)
  }

  ghost predicate RateKept<S>(sent: seq<Sent<S>>, capacity: real, rate: real) {
    forall i, j | 0 <= i <= j < |sent| ::
      && sent[i].time <= sent[j].time
      && (j - i + 1) as real <= capacity + Refill(rate, sent[i].time, sent[j].time)
  }

  /** The stanzas sent from number `i` on, with the tokens left, fit the burst and the refill. */
  ghost predicate Fits<S>(s: Session<S>, i: nat)
    requires i < |s.sent|
  {
    && s.sent[i].time <= s.bucket.lastRefill
    && (|s.sent| - i) as real + s.bucket.tokens
       <= s.bucket.capacity + Refill(s.bucket.rate, s.sent[i].time, s.bucket.lastRefill)
  }

  /** The session after polling the limiter once for the stanza at the front. */
  function PolledOnce<S>(s: Session<S>, clock: Clock): Session<S>
    requires s.outbox != []
  {
    var now := clock(s.polls);
    var polled := s.(bucket := Polled(s.bucket, now), polls := s.polls + 1);
    if Accepts(s.bucket, now) then polled.(outbox := s.outbox[1..], sent := s.sent + [Sent(s.outbox[0], now)])
    else polled
  }

  lemma PollKeepsFits<S>(s: Session<S>, clock: Clock, i: nat)
    requires s.outbox != [] && WellFormed(s.bucket) && s.bucket.lastRefill <= clock(s.polls)
    requires i < |PolledOnce(s, clock).sent| && (i < |s.sent| ==> Fits(s, i))
    ensures Fits(PolledOnce(s, clock), i)
  {
    var now := clock(s.polls);
    RefillOfNoTime(s.bucket.rate, now);
    hide Refill;
    if i < |s.sent| {
      RefillAdds(s.bucket.rate, s.sent[i].time, s.bucket.lastRefill, now);
    }
  }

  lemma PollKeepsRate<S>(s: Session<S>, next: Session<S>, start: Bucket)
    requires RateKept(s.sent, start.capacity, start.rate) && s.sent <= next.sent && |next.sent| <= |s.sent| + 1
    requires |s.sent| < |next.sent| ==> next.sent[|s.sent|].time == next.bucket.lastRefill
    requires forall i | 0 <= i < |next.sent| :: Fits(next, i)
    requires WellFormed(next.bucket)
    requires next.bucket.capacity == start.capacity && next.bucket.rate == start.rate
    ensures RateKept(next.sent, start.capacity, start.rate)
  {
    hide Refill;
    forall i, j | 0 <= i <= j < |next.sent|
      ensures next.sent[i].time <= next.sent[j].time
      ensures (j - i + 1) as real <= start.capacity + Refill(start.rate, next.sent[i].time, next.sent[j].time)
    {
      if j == |s.sent| {
        assert Fits(next, i);
      } else {
        assert next.sent[i] == s.sent[i] && next.sent[j] == s.sent[j];
      }
    }
  }

  lemma PollKeeps<S>(s: Session<S>, start: Bucket, clock: Clock)
    requires WellFormed(start) && Monotone(clock, start.lastRefill)
    requires Keeps(s, start, clock) && s.outbox != []
    ensures Keeps(PolledOnce(s, clock), start, clock)
  {
    hide Refill, Fits, RateKept, Refilled;
    var next := PolledOnce(s, clock);
    BucketFacts(start, clock, s.polls);
    BucketFacts(start, clock, s.polls + 1);
    forall i | 0 <= i < |next.sent| ensures Fits(next, i) {
      PollKeepsFits(s, clock, i);
    }
    PollKeepsRate(s, next, start);
  }

  lemma {:induction false} DrainKeeps<S>(s: Session<S>, start: Bucket, clock: Clock)
    requires WellFormed(start) && Monotone(clock, start.lastRefill) && Keeps(s, start, clock)
    ensures Keeps(Drained(s, clock), start, clock)
    ensures Drained(s, clock).outbox == [] || Drained(s, clock).bucket.tokens < 1.0
    decreases |s.outbox|
  {
    hide Keeps;
    if s.outbox != [] {
      PollKeeps(s, start, clock);
      if Accepts(s.bucket, clock(s.polls)) {
        DrainKeeps(PolledOnce(s, clock), start, clock);
      }
    }
  }

  lemma {:induction false} RunKeeps<S>(start: real, events: seq<Event<S>>, clock: Clock)
    requires Monotone(clock, start)
    ensures Keeps(Run(start, events, clock), Started<S>(start).bucket, clock)
  {
    hide Refill, Drained;
    if events != [] {
      var n := |events| - 1;
      RunKeeps(start, events[..n], clock);
      var before := Run(start, events[..n], clock);
      match events[n]
      case DrainPass => DrainKeeps(before, Started<S>(start).bucket, clock);
      case Enqueue(stanza) =>
        var after := before.(outbox := before.outbox + [stanza]);
        forall i | 0 <= i < |after.sent| ensures Fits(after, i) {
          assert Fits(before, i);
        }
    }
  }

  // ---------------------------------------------------------------------
  // Whole runs
  // ---------------------------------------------------------------------

  /** No stanza is lost, duplicated or reordered, whatever the limiter denies. */
  lemma {:induction false} StanzasConserved<S>(start: real, events: seq<Event<S>>, clock: Clock)
    ensures var s := Run(start, events, clock); Stanzas(s.sent) + s.outbox == Enqueued(events)
  {
    if events != [] {
      var n := |events| - 1;
      StanzasConserved(start, events[..n], clock);
      var before := Run(start, events[..n], clock);
      match events[n]
      case DrainPass => DrainConserves(before, clock);
      case Enqueue(stanza) =>
        assert Stanzas(before.sent) + (before.outbox + [stanza])
            == (Stanzas(before.sent) + before.outbox) + [stanza];
    }
  }

  /** Any stanzas sent within T seconds number at most 30 + 10 T. */
  lemma SendRateBounded<S>(start: real, events: seq<Event<S>>, clock: Clock)
    requires Monotone(clock, start)
    ensures var sent := Run(start, events, clock).sent;
      forall i, j | 0 <= i <= j < |sent| ::
        (j - i + 1) as real <= 30.0 + 10.0 * (sent[j].time - sent[i].time)
  {
    hide Run;
    RunKeeps(start, events, clock);
    var sent := Run(start, events, clock).sent;
    forall i, j | 0 <= i <= j < |sent|
      ensures (j - i + 1) as real <= 30.0 + 10.0 * (sent[j].time - sent[i].time)
    {
      assert RateKept(sent, BURST, STANZAS_PER_SECOND);
      assert Refill(10.0, sent[i].time, sent[j].time) == 10.0 * (sent[j].time - sent[i].time);
    }
  }

  /** After a pass that ends a run, stanzas wait only because the bucket has less than one token. */
  lemma {:induction false} WaitsOnlyWhenDenied<S>(start: real, events: seq<Event<S>>, clock: Clock)
    requires Monotone(clock, start) && events != [] && events[|events| - 1] == DrainPass
    ensures var s := Run(start, events, clock); s.outbox == [] || s.bucket.tokens < 1.0
  {
    var before := Run(start, events[..|events| - 1], clock);
    RunKeeps(start, events[..|events| - 1], clock);
    DrainKeeps(before, Started<S>(start).bucket, clock);
  }

  /** No sending schedule for the same polls that keeps the limit would have sent more. */
  lemma NoScheduleSendsMore<S>(start: real, events: seq<Event<S>>, clock: Clock, d: Schedule)
    requires Monotone(clock, start)
    requires MeetsRate(clock, d, 30.0, 10.0, Run(start, events, clock).polls)
    ensures Count(d, 0, Run(start, events, clock).polls) <= |Run(start, events, clock).sent|
  {
    RunKeeps(start, events, clock);
    GreedyIsOptimal(Started<S>(start).bucket, clock, d, Run(start, events, clock).polls);
  }
}
