/** The in-process sliding-window limiter: per-actor and global queues of admission times,
    pruned from the front. */
module LocalLimiter {
  import opened Collections
  import opened RateHistory

  datatype Buckets = Buckets(actors: map<string, seq<real>>, all: seq<real>)

  function Bucket(b: Buckets, actor: string): seq<real> {
    if actor in b.actors then b.actors[actor] else []
  }

  function DropOld(bucket: seq<real>, cutoff: real): seq<real> {
    if bucket != [] && bucket[0] < cutoff then DropOld(bucket[1..], cutoff) else bucket
  }

  function AllowStep(b: Buckets, r: Request, p: Policy): (Buckets, Verdict) {
    var mine := DropOld(Bucket(b, r.actor), r.at - p.width);
    var all := DropOld(b.all, r.at - p.width);
    var verdict := Rule(|mine|, |all|, p);
    (if verdict.Admitted? then Buckets(b.actors[r.actor := mine + [r.at]], all + [r.at])
     else Buckets(b.actors[r.actor := mine], all),
     verdict)
  }

  /** The buckets after a run of requests. */
  function After(rs: seq<Request>, p: Policy): Buckets {
    if rs == [] then Buckets(map[], [])
    else AllowStep(After(rs[..|rs| - 1], p), rs[|rs| - 1], p).0
  }

  class SlidingWindowRateLimiter {
    const actorRpm: int
    const actorBurst: int
    const globalRpm: int
    const globalBurst: int
    var actorEvents: map<string, seq<real>>
    var globalEvents: seq<real>

    constructor (actorRpm: int, actorBurst: int, globalRpm: int, globalBurst: int)
      ensures State() == Buckets(map[], [])
      ensures Limits() == Policy(60.0, actorRpm + actorBurst, globalRpm + globalBurst)
    {
      this.actorRpm, this.actorBurst, this.globalRpm, this.globalBurst := actorRpm, actorBurst, globalRpm, globalBurst;
      actorEvents, globalEvents := map[], [];
    }

    ghost function State(): Buckets
      reads this
    {
      Buckets(actorEvents, globalEvents)
    }

    ghost function Limits(): Policy {
      Policy(60.0, actorRpm + actorBurst, globalRpm + globalBurst)
    }

    static method Prune(bucket: seq<real>, now: real) returns (rest: seq<real>)
      ensures rest == DropOld(bucket, now - 60.0)
    {
      var cutoff := now - 60.0;
      rest := bucket;
      while rest != [] && rest[0] < cutoff
        invariant DropOld(rest, cutoff) == DropOld(bucket, cutoff)
        decreases |rest|
      {
        rest := rest[1..];
      }
    }

    method Allow(actor: string, now: real) returns (verdict: Verdict)
      modifies this
      ensures (State(), verdict) == AllowStep(old(State()), Request(actor, now), Limits())
    {
      ghost var before := actorEvents;
      if actor !in actorEvents {
        actorEvents := actorEvents[actor := []];
      }
      var mine := Prune(actorEvents[actor], now);
      actorEvents := actorEvents[actor := mine];
      assert actorEvents == before[actor := mine];
      globalEvents := Prune(globalEvents, now);
      if |actorEvents[actor]| >= actorRpm + actorBurst {
        return ActorQuota;
      }
      if |globalEvents| >= globalRpm + globalBurst {
        return GlobalQuota;
      }
      actorEvents := actorEvents[actor := actorEvents[actor] + [now]];
      assert actorEvents == before[actor := mine + [now]];
      globalEvents := globalEvents + [now];
      return Admitted;
    }
  }

  // ------------------------------------------------------------ pruning

  lemma {:induction false} DropTwice(queue: seq<real>, c: real, later: real)
    requires c <= later
    ensures DropOld(DropOld(queue, c), later) == DropOld(queue, later)
  {
    if queue != [] && queue[0] < c {
      DropTwice(queue[1..], c, later);
    }
  }

  lemma {:induction false} DropAppend(queue: seq<real>, t: real, c: real)
    ensures DropOld(queue + [t], c) == if DropOld(queue, c) == [] then DropOld([t], c) else DropOld(queue, c) + [t]
  {
    if queue == [] {
      assert queue + [t] == [t];
    } else if queue[0] < c {
      DropAppend(queue[1..], t, c);
      assert (queue + [t])[1..] == queue[1..] + [t];
    }
  }

  /** What is left of the times after pruning is their window. */
  lemma {:induction false} DropCounts(ts: seq<real>, c: real, now: real)
    requires Before(ts, now)
    ensures |DropOld(ts, c)| == CountBetween(ts, c, now)
  {
    if ts != [] {
      if ts[0] < c {
        assert Before(ts[1..], now);
        DropCounts(ts[1..], c, now);
        assert ts == [ts[0]] + ts[1..];
        CountAppend([ts[0]], ts[1..], c, now);
        CountNone([ts[0]], c, now);
      } else {
        CountAll(ts, c, now);
      }
    }
  }

  // ------------------------------------------------------------ refinement

  /** From `cutoff` on, pruning the queue is as good as pruning the full list of times. */
  ghost predicate Remembers(ts: seq<real>, queue: seq<real>, cutoff: real) {
    forall c: real :: c >= cutoff ==> DropOld(queue, c) == DropOld(ts, c)
  }

  lemma PrunedRemembers(ts: seq<real>, queue: seq<real>, older: real, cutoff: real)
    requires Remembers(ts, queue, older) && older <= cutoff
    ensures Remembers(ts, DropOld(queue, cutoff), cutoff)
  {
    forall c: real | c >= cutoff ensures DropOld(DropOld(queue, cutoff), c) == DropOld(ts, c) {
      DropTwice(queue, cutoff, c);
    }
  }

  lemma AppendedRemembers(ts: seq<real>, queue: seq<real>, cutoff: real, t: real)
    requires Remembers(ts, queue, cutoff)
    ensures Remembers(ts + [t], queue + [t], cutoff)
  {
    forall c: real | c >= cutoff ensures DropOld(queue + [t], c) == DropOld(ts + [t], c) {
      DropAppend(queue, t, c);
      DropAppend(ts, t, c);
    }
  }

  ghost predicate RefinesOf(b: Buckets, h: seq<Request>, cutoff: real, a: string) {
    Remembers(TimesOf(h, a), Bucket(b, a), cutoff)
  }

  /** Every queue remembers its part of the history. */
  ghost predicate Refines(b: Buckets, h: seq<Request>, cutoff: real) {
    Remembers(Times(h), b.all, cutoff) && forall a: string :: RefinesOf(b, h, cutoff, a)
  }

  /** The counts that the limiter compares are those of the history's window. */
  lemma SameDecision(b: Buckets, h: seq<Request>, older: real, r: Request, p: Policy)
    requires Refines(b, h, older) && older <= r.at - p.width && Before(Times(h), r.at)
    ensures AllowStep(b, r, p).1 == Decide(h, r, p)
  {
    var cutoff := r.at - p.width;
    assert |DropOld(b.all, cutoff)| == CountBetween(Times(h), cutoff, r.at) by {
      DropCounts(Times(h), cutoff, r.at);
    }
    assert |DropOld(Bucket(b, r.actor), cutoff)| == CountBetween(TimesOf(h, r.actor), cutoff, r.at) by {
      assert RefinesOf(b, h, older, r.actor);
      PartBefore(h, r.actor, r.at);
      DropCounts(TimesOf(h, r.actor), cutoff, r.at);
    }
  }

  /** What one request does to the queues. */
  lemma StepEffect(b: Buckets, r: Request, p: Policy, a: string)
    ensures var (c, verdict) := AllowStep(b, r, p); var cutoff := r.at - p.width;
      && c.all == (if verdict.Admitted? then DropOld(b.all, cutoff) + [r.at] else DropOld(b.all, cutoff))
      && Bucket(c, a) == (if a != r.actor then Bucket(b, a)
                          else if verdict.Admitted? then DropOld(Bucket(b, a), cutoff) + [r.at]
                          else DropOld(Bucket(b, a), cutoff))
  {
  }

  lemma ActorStep(b: Buckets, h: seq<Request>, older: real, r: Request, p: Policy, a: string)
    requires RefinesOf(b, h, older, a) && older <= r.at - p.width
    ensures var (c, verdict) := AllowStep(b, r, p);
      RefinesOf(c, Extend(h, r, verdict), r.at - p.width, a)
  {
    StepEffect(b, r, p, a);
    TimesAppend(h, r, a);
    PrunedRemembers(TimesOf(h, a), Bucket(b, a), older, r.at - p.width);
    AppendedRemembers(TimesOf(h, a), DropOld(Bucket(b, a), r.at - p.width), r.at - p.width, r.at);
  }

  lemma RefinesStep(b: Buckets, h: seq<Request>, older: real, r: Request, p: Policy)
    requires Refines(b, h, older) && older <= r.at - p.width
    ensures var (c, verdict) := AllowStep(b, r, p);
      Refines(c, Extend(h, r, verdict), r.at - p.width)
  {
    var (c, verdict) := AllowStep(b, r, p);
    var g, cutoff := Extend(h, r, verdict), r.at - p.width;
    forall a: string ensures RefinesOf(c, g, cutoff, a) {
      ActorStep(b, h, older, r, p, a);
    }
    StepEffect(b, r, p, r.actor);
    TimesAppend(h, r, r.actor);
    PrunedRemembers(Times(h), b.all, older, r.at - p.width);
    AppendedRemembers(Times(h), DropOld(b.all, r.at - p.width), r.at - p.width, r.at);
  }

  /** Along every run under a nondecreasing clock the queues refine the history. */
  lemma {:induction false} RunRefinesHistory(rs: seq<Request>, p: Policy, start: real)
    requires Nondecreasing(rs)
    ensures Refines(After(rs, p), Admissions(rs, p), ClockAfter(rs, start) - p.width)
  {
    if rs != [] {
      var before, r := rs[..|rs| - 1], rs[|rs| - 1];
      NondecreasingFront(rs);
      RunRefinesHistory(before, p, r.at);
      RequestRefines(before, r, p);
    }
  }

  lemma RequestRefines(rs: seq<Request>, r: Request, p: Policy)
    requires Nondecreasing(rs) && ClockAfter(rs, r.at) <= r.at
    requires Refines(After(rs, p), Admissions(rs, p), ClockAfter(rs, r.at) - p.width)
    ensures var h := Admissions(rs, p); var (b, verdict) := AllowStep(After(rs, p), r, p);
      verdict == Decide(h, r, p) && Refines(b, Extend(h, r, verdict), r.at - p.width)
  {
    var b, h, clock := After(rs, p), Admissions(rs, p), ClockAfter(rs, r.at);
    AdmissionsBefore(rs, p, r.at);
    BeforeLater(Times(h), clock, r.at);
    SameDecision(b, h, clock - p.width, r, p);
    RefinesStep(b, h, clock - p.width, r, p);
  }

  /** A request is admitted exactly when the admissions of its actor and of all actors
      that lie in the closed window before it are below their limits; a denied request
      counts for nobody. */
  lemma AllowRefinesHistory(rs: seq<Request>, r: Request, p: Policy)
    requires Nondecreasing(rs + [r])
    ensures var h := Admissions(rs, p); var (b, verdict) := AllowStep(After(rs, p), r, p);
      && verdict == Decide(h, r, p)
      && CountsDecide(h, r, p, verdict)
      && Admissions(rs + [r], p) == (if verdict == Admitted then h + [r] else h)
      && Refines(b, Admissions(rs + [r], p), r.at - p.width)
  {
    assert (rs + [r])[..|rs|] == rs;
    NondecreasingFront(rs + [r]);
    RunRefinesHistory(rs, p, r.at);
    RequestRefines(rs, r, p);
    DecisionCounts(Admissions(rs, p), r, p);
  }

  /** Whatever the clock does, no queue outgrows its limit. */
  lemma {:induction false} QueuesStayShort(rs: seq<Request>, p: Policy, actor: string)
    ensures |Bucket(After(rs, p), actor)| <= AtLeastZero(p.actorLimit)
    ensures |After(rs, p).all| <= AtLeastZero(p.globalLimit)
  {
    if rs != [] {
      var b, r := After(rs[..|rs| - 1], p), rs[|rs| - 1];
      QueuesStayShort(rs[..|rs| - 1], p, actor);
      StepEffect(b, r, p, actor);
      DropOldShrinks(Bucket(b, r.actor), r.at - p.width);
      DropOldShrinks(b.all, r.at - p.width);
    }
  }

  lemma {:induction false} DropOldShrinks(queue: seq<real>, cutoff: real)
    ensures |DropOld(queue, cutoff)| <= |queue|
  {
    if queue != [] {
      DropOldShrinks(queue[1..], cutoff);
    }
  }

  // ------------------------------------------------------------ global = sum of actors

  /** The times from `cutoff` on. */
  function Window(ts: seq<real>, cutoff: real): multiset<real> {
    if ts == [] then multiset{}
    else (if ts[0] >= cutoff then multiset{ts[0]} else multiset{}) + Window(ts[1..], cutoff)
  }

  function QueueWindows(b: Buckets, actors: seq<string>, cutoff: real): multiset<real> {
    if actors == [] then multiset{} else Window(Bucket(b, actors[0]), cutoff) + QueueWindows(b, actors[1..], cutoff)
  }

  function PartWindows(h: seq<Request>, actors: seq<string>, cutoff: real): multiset<real> {
    if actors == [] then multiset{} else Window(TimesOf(h, actors[0]), cutoff) + PartWindows(h, actors[1..], cutoff)
  }

  function InWindow(t: real, cutoff: real): multiset<real> {
    if t >= cutoff then multiset{t} else multiset{}
  }

  lemma {:induction false} WindowAppend(ts: seq<real>, t: real, cutoff: real)
    ensures Window(ts + [t], cutoff) == Window(ts, cutoff) + InWindow(t, cutoff)
  {
    if ts == [] {
      assert ts + [t] == [t];
    } else {
      WindowAppend(ts[1..], t, cutoff);
      assert (ts + [t])[1..] == ts[1..] + [t];
    }
  }

  lemma {:induction false} WindowOfPruned(ts: seq<real>, cutoff: real)
    ensures Window(DropOld(ts, cutoff), cutoff) == Window(ts, cutoff)
  {
    if ts != [] && ts[0] < cutoff {
      WindowOfPruned(ts[1..], cutoff);
    }
  }

  lemma SameWindow(ts: seq<real>, queue: seq<real>, older: real, cutoff: real)
    requires Remembers(ts, queue, older) && older <= cutoff
    ensures Window(queue, cutoff) == Window(ts, cutoff)
  {
    WindowOfPruned(ts, cutoff);
    WindowOfPruned(queue, cutoff);
  }

  /** One more event belongs to the part of exactly one of the listed actors. */
  lemma {:induction false} PartsAppend(h: seq<Request>, r: Request, actors: seq<string>, cutoff: real)
    requires NoDup(actors)
    ensures PartWindows(h + [r], actors, cutoff)
         == PartWindows(h, actors, cutoff) + if r.actor in actors then InWindow(r.at, cutoff) else multiset{}
  {
    if actors != [] {
      PartsAppend(h, r, actors[1..], cutoff);
      TimesAppend(h, r, actors[0]);
      WindowAppend(TimesOf(h, actors[0]), r.at, cutoff);
      assert r.actor in actors <==> r.actor == actors[0] || r.actor in actors[1..];
      assert r.actor == actors[0] ==> r.actor !in actors[1..];
    }
  }

  lemma {:induction false} PartsMakeTheWhole(h: seq<Request>, actors: seq<string>, cutoff: real)
    requires NoDup(actors) && forall r :: r in h ==> r.actor in actors
    ensures Window(Times(h), cutoff) == PartWindows(h, actors, cutoff)
  {
    if h == [] {
      NoParts(actors, cutoff);
    } else {
      var front, r := h[..|h| - 1], h[|h| - 1];
      PartsMakeTheWhole(front, actors, cutoff);
      PartsAppend(front, r, actors, cutoff);
      WindowAppend(Times(front), r.at, cutoff);
      assert h == front + [r];
    }
  }

  lemma {:induction false} NoParts(actors: seq<string>, cutoff: real)
    ensures PartWindows([], actors, cutoff) == multiset{}
  {
    if actors != [] {
      NoParts(actors[1..], cutoff);
    }
  }

  lemma {:induction false} QueuesMatchParts(b: Buckets, h: seq<Request>, actors: seq<string>, older: real, cutoff: real)
    requires Refines(b, h, older) && older <= cutoff
    ensures QueueWindows(b, actors, cutoff) == PartWindows(h, actors, cutoff)
  {
    if actors != [] {
      QueuesMatchParts(b, h, actors[1..], older, cutoff);
      assert RefinesOf(b, h, older, actors[0]);
      SameWindow(TimesOf(h, actors[0]), Bucket(b, actors[0]), older, cutoff);
    }
  }

  lemma {:induction false} EveryActorHasAQueue(rs: seq<Request>, p: Policy)
    requires Nondecreasing(rs)
    ensures forall r :: r in Admissions(rs, p) ==> r.actor in After(rs, p).actors
  {
    if rs != [] {
      NondecreasingFront(rs);
      EveryActorHasAQueue(rs[..|rs| - 1], p);
    }
  }

  /** Although a request prunes only the caller's own queue, the global queue and all the
      actors' queues together always hold the same in-window events. */
  lemma GlobalIsSumOfActors(rs: seq<Request>, p: Policy, actors: seq<string>, start: real, cutoff: real)
    requires Nondecreasing(rs) && ClockAfter(rs, start) - p.width <= cutoff
    requires NoDup(actors) && forall a :: a in After(rs, p).actors ==> a in actors
    ensures Window(After(rs, p).all, cutoff) == QueueWindows(After(rs, p), actors, cutoff)
  {
    var b, h := After(rs, p), Admissions(rs, p);
    RunRefinesHistory(rs, p, start);
    EveryActorHasAQueue(rs, p);
    PartsMakeTheWhole(h, actors, cutoff);
    QueuesMatchParts(b, h, actors, ClockAfter(rs, start) - p.width, cutoff);
    SameWindow(Times(h), b.all, ClockAfter(rs, start) - p.width, cutoff);
  }
}
