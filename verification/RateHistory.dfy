/** What a sliding-window limiter is meant to do, told by the history of its admissions
    alone: nothing is stored, nothing is pruned, every decision counts the past. */
module RateHistory {
  datatype Request = Request(actor: string, at: real)

  datatype Verdict = Admitted | ActorQuota | GlobalQuota

  /** Window width in the clock's unit and the two limits. */
  datatype Policy = Policy(width: real, actorLimit: int, globalLimit: int)

  function Times(h: seq<Request>): seq<real> {
    if h == [] then [] else Times(h[..|h| - 1]) + [h[|h| - 1].at]
  }

  /** The times that belong to one actor. */
  function TimesOf(h: seq<Request>, actor: string): seq<real> {
    if h == [] then []
    else if h[|h| - 1].actor == actor then TimesOf(h[..|h| - 1], actor) + [h[|h| - 1].at]
    else TimesOf(h[..|h| - 1], actor)
  }

  function CountBetween(ts: seq<real>, lo: real, hi: real): nat {
    if ts == [] then 0
    else CountBetween(ts[..|ts| - 1], lo, hi) + if lo <= ts[|ts| - 1] <= hi then 1 else 0
  }

  /** The actor's quota is looked at first. */
  function Rule(mine: nat, all: nat, p: Policy): Verdict {
    if mine >= p.actorLimit then ActorQuota else if all >= p.globalLimit then GlobalQuota else Admitted
  }

  function Decide(h: seq<Request>, r: Request, p: Policy): Verdict {
    Rule(CountBetween(TimesOf(h, r.actor), r.at - p.width, r.at), CountBetween(Times(h), r.at - p.width, r.at), p)
  }

  /** What the verdict says about the counts in the closed window before the request. */
  ghost predicate CountsDecide(h: seq<Request>, r: Request, p: Policy, verdict: Verdict) {
    var mine, all := CountBetween(TimesOf(h, r.actor), r.at - p.width, r.at),
                     CountBetween(Times(h), r.at - p.width, r.at);
    && (verdict == ActorQuota <==> mine >= p.actorLimit)
    && (verdict == GlobalQuota <==> mine < p.actorLimit && all >= p.globalLimit)
    && (verdict == Admitted <==> mine < p.actorLimit && all < p.globalLimit)
  }

  lemma DecisionCounts(h: seq<Request>, r: Request, p: Policy)
    ensures CountsDecide(h, r, p, Decide(h, r, p))
  {
  }

  function Extend(h: seq<Request>, r: Request, verdict: Verdict): seq<Request> {
    if verdict.Admitted? then h + [r] else h
  }

  /** The admissions of a whole run of requests. */
  function Admissions(rs: seq<Request>, p: Policy): seq<Request> {
    if rs == [] then []
    else
      var h, r := Admissions(rs[..|rs| - 1], p), rs[|rs| - 1];
      Extend(h, r, Decide(h, r, p))
  }

  ghost predicate Nondecreasing(rs: seq<Request>) {
    forall i, j :: 0 <= i < j < |rs| ==> rs[i].at <= rs[j].at
  }

  /** Sorted, and nothing later than now. */
  ghost predicate Before(ts: seq<real>, now: real) {
    (forall i, j :: 0 <= i < j < |ts| ==> ts[i] <= ts[j]) && forall i :: 0 <= i < |ts| ==> ts[i] <= now
  }

  // ------------------------------------------------------------ counting

  lemma {:induction false} CountAppend(a: seq<real>, b: seq<real>, lo: real, hi: real)
    ensures CountBetween(a + b, lo, hi) == CountBetween(a, lo, hi) + CountBetween(b, lo, hi)
  {
    if b == [] {
      assert a + b == a;
    } else {
      CountAppend(a, b[..|b| - 1], lo, hi);
      assert (a + b)[..|a + b| - 1] == a + b[..|b| - 1];
    }
  }

  /** Splitting a window in two. */
  lemma {:induction false} CountSplit(ts: seq<real>, lo: real, mid: real, hi: real)
    ensures CountBetween(ts, lo, hi) <= CountBetween(ts, lo, mid) + CountBetween(ts, mid, hi)
  {
    if ts != [] {
      CountSplit(ts[..|ts| - 1], lo, mid, hi);
    }
  }

  lemma {:induction false} CountMonotone(ts: seq<real>, lo: real, hi: real, lo': real, hi': real)
    requires forall i :: 0 <= i < |ts| && lo <= ts[i] <= hi ==> lo' <= ts[i] <= hi'
    ensures CountBetween(ts, lo, hi) <= CountBetween(ts, lo', hi')
  {
    if ts != [] {
      CountMonotone(ts[..|ts| - 1], lo, hi, lo', hi');
    }
  }

  lemma {:induction false} CountNone(ts: seq<real>, lo: real, hi: real)
    requires forall i :: 0 <= i < |ts| ==> ts[i] < lo
    ensures CountBetween(ts, lo, hi) == 0
  {
    if ts != [] {
      CountNone(ts[..|ts| - 1], lo, hi);
    }
  }

  lemma {:induction false} CountAll(ts: seq<real>, lo: real, hi: real)
    requires forall i :: 0 <= i < |ts| ==> lo <= ts[i] <= hi
    ensures CountBetween(ts, lo, hi) == |ts|
  {
    if ts != [] {
      CountAll(ts[..|ts| - 1], lo, hi);
    }
  }

  // ------------------------------------------------------------ histories

  lemma TimesAppend(h: seq<Request>, r: Request, actor: string)
    ensures Times(h + [r]) == Times(h) + [r.at]
    ensures TimesOf(h + [r], actor) == if r.actor == actor then TimesOf(h, actor) + [r.at] else TimesOf(h, actor)
  {
    assert (h + [r])[..|h|] == h;
  }

  lemma BeforeAppend(ts: seq<real>, t: real)
    requires Before(ts, t)
    ensures Before(ts + [t], t)
  {
  }

  lemma BeforeLater(ts: seq<real>, clock: real, now: real)
    requires Before(ts, clock) && clock <= now
    ensures Before(ts, now)
  {
  }

  /** An actor's times are among all times. */
  lemma {:induction false} PartBefore(h: seq<Request>, actor: string, now: real)
    requires Before(Times(h), now)
    ensures Before(TimesOf(h, actor), now)
  {
    if h != [] {
      var front, last := h[..|h| - 1], h[|h| - 1];
      var ts := Times(front);
      assert Times(h) == ts + [last.at];
      assert forall i :: 0 <= i < |ts| ==> ts[i] == Times(h)[i];
      assert Times(h)[|ts|] == last.at;
      PartBefore(front, actor, last.at);
    }
  }

  function ClockAfter(rs: seq<Request>, start: real): real {
    if rs == [] then start else rs[|rs| - 1].at
  }

  lemma NondecreasingFront(rs: seq<Request>)
    requires Nondecreasing(rs) && rs != []
    ensures Nondecreasing(rs[..|rs| - 1])
    ensures ClockAfter(rs[..|rs| - 1], rs[|rs| - 1].at) <= rs[|rs| - 1].at
  {
  }

  /** Admissions happen in the order of the clock. */
  lemma {:induction false} AdmissionsBefore(rs: seq<Request>, p: Policy, start: real)
    requires Nondecreasing(rs)
    ensures Before(Times(Admissions(rs, p)), ClockAfter(rs, start))
  {
    if rs != [] {
      var before, r := rs[..|rs| - 1], rs[|rs| - 1];
      NondecreasingFront(rs);
      AdmissionsBefore(before, p, r.at);
      var h := Admissions(before, p);
      BeforeLater(Times(h), ClockAfter(before, r.at), r.at);
      BeforeAppend(Times(h), r.at);
      TimesAppend(h, r, r.actor);
    }
  }

  // ------------------------------------------------------------ the rate bound

  /** `max(0, n)` */
  function AtLeastZero(n: int): (r: nat)
    ensures r >= n && (r == 0 || r == n)
  {
    if n < 0 then 0 else n
  }

  ghost predicate WindowWithin(ts: seq<real>, lo: real, width: real, limit: nat) {
    CountBetween(ts, lo, lo + width) <= limit
  }

  /** Every closed window of the given width holds at most `limit` events. */
  ghost predicate WindowsWithin(ts: seq<real>, width: real, limit: nat) {
    forall lo: real :: WindowWithin(ts, lo, width, limit)
  }

  /** Adding a latest event whose own window has room. */
  lemma WindowStep(ts: seq<real>, t: real, lo: real, width: real, limit: int)
    requires Before(ts, t) && WindowWithin(ts, lo, width, AtLeastZero(limit))
    requires CountBetween(ts, t - width, t) < limit
    ensures WindowWithin(ts + [t], lo, width, AtLeastZero(limit))
  {
    assert (ts + [t])[..|ts|] == ts;
    if lo <= t <= lo + width {
      CountMonotone(ts, lo, lo + width, t - width, t);
    }
  }

  ghost predicate Bounded(h: seq<Request>, p: Policy, actor: string, lo: real) {
    && WindowWithin(TimesOf(h, actor), lo, p.width, AtLeastZero(p.actorLimit))
    && WindowWithin(Times(h), lo, p.width, AtLeastZero(p.globalLimit))
  }

  lemma AdmissionKeepsBound(h: seq<Request>, r: Request, p: Policy, actor: string, lo: real)
    requires Bounded(h, p, actor, lo) && Decide(h, r, p) == Admitted && Before(Times(h), r.at)
    ensures Bounded(h + [r], p, actor, lo)
  {
    var mine, all := TimesOf(h, actor), Times(h);
    assert WindowWithin(all + [r.at], lo, p.width, AtLeastZero(p.globalLimit)) by {
      WindowStep(all, r.at, lo, p.width, p.globalLimit);
    }
    assert r.actor == actor ==> WindowWithin(mine + [r.at], lo, p.width, AtLeastZero(p.actorLimit)) by {
      if r.actor == actor {
        PartBefore(h, actor, r.at);
        WindowStep(mine, r.at, lo, p.width, p.actorLimit);
      }
    }
    TimesAppend(h, r, actor);
  }

  lemma {:induction false} WindowBound(rs: seq<Request>, p: Policy, actor: string, lo: real)
    requires Nondecreasing(rs)
    ensures Bounded(Admissions(rs, p), p, actor, lo)
  {
    if rs != [] {
      var before, r := rs[..|rs| - 1], rs[|rs| - 1];
      NondecreasingFront(rs);
      WindowBound(before, p, actor, lo);
      var h := Admissions(before, p);
      AdmissionsBefore(before, p, r.at);
      BeforeLater(Times(h), ClockAfter(before, r.at), r.at);
      if Decide(h, r, p) == Admitted {
        AdmissionKeepsBound(h, r, p, actor, lo);
      }
    }
  }

  /** No closed window of the policy's width ever holds more admissions than the limits:
      of one actor, and of all actors together. */
  lemma RunIsBounded(rs: seq<Request>, p: Policy, actor: string)
    requires Nondecreasing(rs)
    ensures WindowsWithin(TimesOf(Admissions(rs, p), actor), p.width, AtLeastZero(p.actorLimit))
    ensures WindowsWithin(Times(Admissions(rs, p)), p.width, AtLeastZero(p.globalLimit))
  {
    forall lo: real
      ensures WindowWithin(TimesOf(Admissions(rs, p), actor), lo, p.width, AtLeastZero(p.actorLimit))
      ensures WindowWithin(Times(Admissions(rs, p)), lo, p.width, AtLeastZero(p.globalLimit))
    {
      WindowBound(rs, p, actor, lo);
    }
  }

  /** Over a longer interval the bound is paid once for each window it takes to cover. */
  lemma {:induction false} IntervalBound(ts: seq<real>, width: real, limit: nat, lo: real, n: nat, span: real)
    requires width > 0.0 && WindowsWithin(ts, width, limit)
    requires 0.0 <= span < width * (n as real)
    ensures CountBetween(ts, lo, lo + span) <= n * limit
    decreases n
  {
    assert n >= 1;
    OneWindowLess(width, limit, n - 1);
    assert WindowWithin(ts, lo, width, limit);
    if span <= width {
      CountMonotone(ts, lo, lo + span, lo, lo + width);
    } else {
      CountSplit(ts, lo, lo + width, lo + span);
      IntervalBound(ts, width, limit, lo + width, n - 1, span - width);
      assert lo + width + (span - width) == lo + span;
    }
  }

  lemma OneWindowLess(width: real, limit: nat, n: nat)
    ensures (n + 1) * limit == n * limit + limit && 0 <= n * limit
    ensures width * ((n + 1) as real) == width * (n as real) + width
  {
  }

  lemma FloorCovers(span: real, width: real)
    requires span >= 0.0 && width > 0.0
    ensures (span / width).Floor + 1 >= 1
    ensures span < width * (((span / width).Floor + 1) as real)
  {
    var q := span / width;
    assert q * width == span;
    assert q >= 0.0 by {
      if q < 0.0 {
        Product(-q, width);
      }
    }
    var n := (q.Floor + 1) as real;
    assert n > q;
    Product(n - q, width);
    assert (n - q) * width == n * width - q * width;
  }

  lemma Product(x: real, y: real)
    requires x > 0.0 && y > 0.0
    ensures x * y > 0.0
  {
  }

  /** In any interval of length T at most (floor(T / width) + 1) times the limit. */
  lemma LongRunBound(rs: seq<Request>, p: Policy, actor: string, lo: real, span: real)
    requires Nondecreasing(rs) && p.width > 0.0 && span >= 0.0
    ensures CountBetween(TimesOf(Admissions(rs, p), actor), lo, lo + span)
              <= ((span / p.width).Floor + 1) * AtLeastZero(p.actorLimit)
    ensures CountBetween(Times(Admissions(rs, p)), lo, lo + span)
              <= ((span / p.width).Floor + 1) * AtLeastZero(p.globalLimit)
  {
    FloorCovers(span, p.width);
    var n := (span / p.width).Floor + 1;
    RunIsBounded(rs, p, actor);
    IntervalBound(TimesOf(Admissions(rs, p), actor), p.width, AtLeastZero(p.actorLimit), lo, n, span);
    IntervalBound(Times(Admissions(rs, p)), p.width, AtLeastZero(p.globalLimit), lo, n, span);
  }
}
