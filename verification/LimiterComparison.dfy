/** The two limiters side by side: the shared limiter's half-open window, and how its
    admissions compare with those of the in-process limiter on the same requests. */
module LimiterComparison {
  import opened Collections
  import opened RateHistory
  import opened RedisLimiter

  // ------------------------------------------------------------ the half-open window

  /** How many times lie in (lo, hi]. */
  function CountHalfOpen(ts: seq<real>, lo: real, hi: real): nat {
    if ts == [] then 0
    else CountHalfOpen(ts[..|ts| - 1], lo, hi) + if lo < ts[|ts| - 1] <= hi then 1 else 0
  }

  lemma {:induction false} HalfOpenIsClosed(ts: seq<real>, t: real)
    requires AllWhole(ts)
    ensures CountHalfOpen(ts, t - 60000.0, t) <= CountBetween(ts, t.Floor as real - 59999.0, t.Floor as real)
  {
    if ts != [] {
      var x := ts[|ts| - 1];
      assert Whole(x);
      HalfOpenIsClosed(ts[..|ts| - 1], t);
      var n, m := x.Floor, t.Floor;
      assert x <= t ==> n <= m;
      assert x > t - 60000.0 ==> n >= m - 59999;
    }
  }

  lemma {:induction false} StampsInOrder(qs: seq<MsRequest>)
    requires InOrder(qs)
    ensures |Stamps(qs)| == |qs| && Nondecreasing(Stamps(qs))
    ensures forall i :: 0 <= i < |qs| ==> Stamps(qs)[i] == Stamped(qs[i])
  {
    if qs != [] {
      InOrderFront(qs);
      StampsInOrder(qs[..|qs| - 1]);
    }
  }

  lemma {:induction false} AdmissionsAreWhole(qs: seq<MsRequest>, p: Policy, actor: string)
    ensures var h := Admissions(Stamps(qs), p); AllWhole(Times(h)) && AllWhole(TimesOf(h, actor))
  {
    if qs != [] {
      var front, q := qs[..|qs| - 1], qs[|qs| - 1];
      AdmissionsAreWhole(front, p, actor);
      AdmitLast(Stamps(front), Stamped(q), p);
      WholeAppend(Admissions(Stamps(front), p), Stamped(q), actor);
    }
  }

  lemma WholeAppend(h: seq<Request>, r: Request, actor: string)
    requires AllWhole(Times(h)) && AllWhole(TimesOf(h, actor)) && Whole(r.at)
    ensures AllWhole(Times(h + [r])) && AllWhole(TimesOf(h + [r], actor))
  {
    TimesAppend(h, r, actor);
  }

  /** Under a nondecreasing millisecond clock at most `limit` admissions of an actor, and
      of all actors, fall into any window (t - 60000, t]. */
  lemma RedisWindowBound(qs: seq<MsRequest>, actorLimit: int, globalLimit: int, actor: string, t: real)
    requires InOrder(qs)
    ensures var h := Admissions(Stamps(qs), Limits(actorLimit, globalLimit));
      && CountHalfOpen(TimesOf(h, actor), t - 60000.0, t) <= AtLeastZero(actorLimit)
      && CountHalfOpen(Times(h), t - 60000.0, t) <= AtLeastZero(globalLimit)
  {
    var p := Limits(actorLimit, globalLimit);
    StampsInOrder(qs);
    AdmissionsAreWhole(qs, p, actor);
    HalfOpenIsClosed(TimesOf(Admissions(Stamps(qs), p), actor), t);
    HalfOpenIsClosed(Times(Admissions(Stamps(qs), p)), t);
    var lo := t.Floor as real - 59999.0;
    WindowBound(Stamps(qs), p, actor, lo);
    assert lo + p.width == t.Floor as real;
  }

  // ------------------------------------------------------------ one queue, two limiters

  /** `int(time.time() * 1000)`, for a time in seconds. */
  function Millis(t: real): int {
    (1000.0 * t).Floor
  }

  function Floored(ts: seq<real>): seq<real> {
    if ts == [] then [] else Floored(ts[..|ts| - 1]) + [Millis(ts[|ts| - 1]) as real]
  }

  /** How many of the admitted times the shared limiter still counts at time t. */
  function CountFloored(admitted: seq<real>, t: real): nat {
    CountBetween(Floored(admitted), Millis(t) as real - 59999.0, Millis(t) as real)
  }

  /** The admitted times of a single shared queue, which sees whole milliseconds only. */
  function GreedyShared(ts: seq<real>, limit: int): seq<real> {
    if ts == [] then [] else OfferShared(GreedyShared(ts[..|ts| - 1], limit), ts[|ts| - 1], limit)
  }

  function OfferShared(admitted: seq<real>, t: real, limit: int): seq<real> {
    if CountFloored(admitted, t) < limit then admitted + [t] else admitted
  }

  /** The k-th entry of `early` is never later than the k-th entry of `late`. */
  ghost predicate NeverLater(early: seq<real>, late: seq<real>) {
    |late| <= |early| && forall k :: 0 <= k < |late| ==> early[k] <= late[k]
  }

  /** A stamp that is within the shared window belongs to a time within the closed one. */
  lemma MillisWindow(x: real, t: real)
    requires Millis(t) as real - 59999.0 <= Millis(x) as real
    ensures t - 60.0 <= x
  {
    assert Millis(x) as real <= 1000.0 * x;
    assert 1000.0 * t < Millis(t) as real + 1.0;
  }

  lemma {:induction false} SharedCountsLess(early: seq<real>, late: seq<real>, t: real)
    requires |early| == |late| && NeverLater(early, late)
    requires forall k :: 0 <= k < |late| ==> late[k] <= t
    ensures CountFloored(early, t) <= CountBetween(late, t - 60.0, t)
  {
    if early != [] {
      var x, y := early[|early| - 1], late[|late| - 1];
      SharedCountsLess(early[..|early| - 1], late[..|late| - 1], t);
      if Millis(t) as real - 59999.0 <= Millis(x) as real {
        MillisWindow(x, t);
        assert t - 60.0 <= y <= t;
      }
    }
  }

  lemma {:induction false} GreedyBefore(ts: seq<real>, limit: int, now: real)
    requires Before(ts, now)
    ensures forall k :: 0 <= k < |GreedyShared(ts, limit)| ==> GreedyShared(ts, limit)[k] <= now
  {
    if ts != [] {
      GreedyBefore(ts[..|ts| - 1], limit, now);
    }
  }

  /** When the later queue admits, so does the earlier one; when it does not, nothing is lost. */
  lemma OfferKeepsOrder(early: seq<real>, late: seq<real>, t: real, limit: int, admitted: bool)
    requires NeverLater(early, late)
    requires forall k :: 0 <= k < |early| ==> early[k] <= t
    requires forall k :: 0 <= k < |late| ==> late[k] <= t
    requires admitted ==> CountBetween(late, t - 60.0, t) < limit
    ensures NeverLater(OfferShared(early, t, limit), if admitted then late + [t] else late)
  {
    if admitted && |early| == |late| {
      assert OfferShared(early, t, limit) == early + [t] by { SharedCountsLess(early, late, t); }
      BothLater(early, late, t);
    } else {
      OneLater(early, late, t);
    }
  }

  lemma BothLater(early: seq<real>, late: seq<real>, t: real)
    requires NeverLater(early, late) && |early| == |late|
    ensures NeverLater(early + [t], late + [t])
  {
  }

  lemma OneLater(early: seq<real>, late: seq<real>, t: real)
    requires NeverLater(early, late)
    requires forall k :: 0 <= k < |early| ==> early[k] <= t
    ensures NeverLater(early + [t], late)
    ensures |late| < |early| ==> NeverLater(early, late + [t]) && NeverLater(early + [t], late + [t])
  {
  }

  lemma GreedyStep(ts: seq<real>, t: real, limit: int)
    ensures GreedyShared(ts + [t], limit) == OfferShared(GreedyShared(ts, limit), t, limit)
  {
    assert (ts + [t])[..|ts|] == ts;
  }

  // ------------------------------------------------------------ the in-process limiter

  lemma LocalStep(h: seq<Request>, ts: seq<real>, r: Request, p: Policy, verdict: Verdict)
    requires p.width == 60.0 && verdict == Decide(h, r, p)
    requires NeverLater(GreedyShared(ts, p.actorLimit), TimesOf(h, r.actor))
    requires Before(ts, r.at) && Before(TimesOf(h, r.actor), r.at)
    ensures NeverLater(GreedyShared(ts + [r.at], p.actorLimit), TimesOf(Extend(h, r, verdict), r.actor))
  {
    var early, late := GreedyShared(ts, p.actorLimit), TimesOf(h, r.actor);
    GreedyBefore(ts, p.actorLimit, r.at);
    OfferKeepsOrder(early, late, r.at, p.actorLimit, verdict == Admitted);
    GreedyStep(ts, r.at, p.actorLimit);
    TimesAppend(h, r, r.actor);
  }

  /** Whatever the global limit, the in-process limiter admits an actor's k-th request no
      earlier than a shared queue for that actor alone. */
  lemma {:induction false} LocalIsNeverEarlier(rs: seq<Request>, p: Policy, actor: string)
    requires Nondecreasing(rs) && p.width == 60.0
    ensures NeverLater(GreedyShared(TimesOf(rs, actor), p.actorLimit), TimesOf(Admissions(rs, p), actor))
  {
    if rs != [] {
      var front, r := rs[..|rs| - 1], rs[|rs| - 1];
      FrontAndLast(rs);
      NondecreasingFront(rs);
      LocalIsNeverEarlier(front, p, actor);
      var h := Admissions(front, p);
      AdmitLast(front, r, p);
      TimesAppend(front, r, actor);
      if r.actor == actor {
        EarlierRequests(front, r, p);
        LocalStep(h, TimesOf(front, actor), r, p, Decide(h, r, p));
      } else {
        TimesAppend(h, r, actor);
      }
    }
  }

  /** Neither a request nor an admission of the actor is later than the next request. */
  lemma EarlierRequests(rs: seq<Request>, r: Request, p: Policy)
    requires Nondecreasing(rs) && ClockAfter(rs, r.at) <= r.at
    ensures Before(TimesOf(rs, r.actor), r.at) && Before(TimesOf(Admissions(rs, p), r.actor), r.at)
  {
    RequestsBefore(rs, r.at);
    BeforeLater(Times(rs), ClockAfter(rs, r.at), r.at);
    PartBefore(rs, r.actor, r.at);
    AdmissionsBefore(rs, p, r.at);
    BeforeLater(Times(Admissions(rs, p)), ClockAfter(rs, r.at), r.at);
    PartBefore(Admissions(rs, p), r.actor, r.at);
  }

  // ------------------------------------------------------------ the shared limiter

  ghost predicate SinceEpoch(rs: seq<Request>) {
    forall i :: 0 <= i < |rs| ==> rs[i].at >= 0.0
  }

  function AtMillis(r: Request): MsRequest
    requires r.at >= 0.0
  {
    MsRequest(r.actor, Millis(r.at))
  }

  /** The same requests as the shared limiter sees them. */
  function InMillis(rs: seq<Request>): (qs: seq<MsRequest>)
    requires SinceEpoch(rs)
    ensures |qs| == |rs| && forall i :: 0 <= i < |qs| ==> qs[i] == AtMillis(rs[i])
  {
    seq(|rs|, i requires 0 <= i < |rs| => AtMillis(rs[i]))
  }

  /** What the script answers to a request after a run of requests. */
  ghost function Code(rs: seq<Request>, r: Request, actorLimit: int, globalLimit: int): int
    requires SinceEpoch(rs) && r.at >= 0.0
  {
    Eval(After(InMillis(rs), actorLimit, globalLimit, true), AtMillis(r), actorLimit, globalLimit, true).1
  }

  /** The requests that the script admits, at their true times. */
  ghost function SharedAdmissions(rs: seq<Request>, actorLimit: int, globalLimit: int): seq<Request>
    requires SinceEpoch(rs)
  {
    if rs == [] then []
    else
      var front, r := rs[..|rs| - 1], rs[|rs| - 1];
      Extend(SharedAdmissions(front, actorLimit, globalLimit), r, VerdictOf(Code(front, r, actorLimit, globalLimit)))
  }

  /** The script never answers that the global quota is exceeded. */
  ghost predicate SharedNeverBinds(rs: seq<Request>, actorLimit: int, globalLimit: int)
    requires SinceEpoch(rs)
  {
    rs != [] ==>
      var front, r := rs[..|rs| - 1], rs[|rs| - 1];
      SharedNeverBinds(front, actorLimit, globalLimit) && Code(front, r, actorLimit, globalLimit) != 3
  }

  function FlooredRequests(h: seq<Request>): seq<Request> {
    if h == [] then []
    else FlooredRequests(h[..|h| - 1]) + [Request(h[|h| - 1].actor, Millis(h[|h| - 1].at) as real)]
  }

  lemma FlooredAppend(h: seq<Request>, r: Request)
    ensures FlooredRequests(h + [r]) == FlooredRequests(h) + [Request(r.actor, Millis(r.at) as real)]
  {
    assert (h + [r])[..|h|] == h;
  }

  lemma {:induction false} FlooredTimesOf(h: seq<Request>, actor: string)
    ensures TimesOf(FlooredRequests(h), actor) == Floored(TimesOf(h, actor))
  {
    if h != [] {
      var front, r := h[..|h| - 1], h[|h| - 1];
      FlooredTimesOf(front, actor);
      TimesAppend(FlooredRequests(front), Request(r.actor, Millis(r.at) as real), actor);
      FlooredTimeAppend(TimesOf(front, actor), r.at);
    }
  }

  lemma FlooredTimeAppend(ts: seq<real>, t: real)
    ensures Floored(ts + [t]) == Floored(ts) + [Millis(t) as real]
  {
    assert (ts + [t])[..|ts|] == ts;
  }

  lemma InMillisInOrder(rs: seq<Request>)
    requires Nondecreasing(rs) && SinceEpoch(rs)
    ensures InOrder(InMillis(rs))
  {
    forall i, j | 0 <= i < j < |rs| ensures Millis(rs[i].at) <= Millis(rs[j].at) {
      assert rs[i].at <= rs[j].at;
    }
  }

  lemma AdmitLast(rs: seq<Request>, r: Request, p: Policy)
    ensures Admissions(rs + [r], p) == Extend(Admissions(rs, p), r, Decide(Admissions(rs, p), r, p))
  {
    assert (rs + [r])[..|rs|] == rs;
  }

  /** The script's answer, told by the history of stamps. */
  lemma CodeIsDecision(rs: seq<Request>, r: Request, actorLimit: int, globalLimit: int)
    requires Nondecreasing(rs + [r]) && SinceEpoch(rs + [r])
    ensures SinceEpoch(rs) && r.at >= 0.0
    ensures var p := Limits(actorLimit, globalLimit);
      VerdictOf(Code(rs, r, actorLimit, globalLimit))
      == Decide(Admissions(Stamps(InMillis(rs)), p), Stamped(AtMillis(r)), p)
      && (Code(rs, r, actorLimit, globalLimit) == 3 <==> VerdictOf(Code(rs, r, actorLimit, globalLimit)) == GlobalQuota)
  {
    assert (rs + [r])[|rs|] == r;
    assert forall i :: 0 <= i < |rs| ==> rs[i] == (rs + [r])[i];
    InMillisInOrder(rs + [r]);
    assert InMillis(rs + [r]) == InMillis(rs) + [AtMillis(r)];
    ExpiryIsInvisible(InMillis(rs), AtMillis(r), actorLimit, globalLimit);
  }

  /** What the script admits is what the history of stamps admits. */
  lemma {:induction false} SharedIsHistory(rs: seq<Request>, actorLimit: int, globalLimit: int)
    requires Nondecreasing(rs) && SinceEpoch(rs)
    ensures FlooredRequests(SharedAdmissions(rs, actorLimit, globalLimit))
         == Admissions(Stamps(InMillis(rs)), Limits(actorLimit, globalLimit))
  {
    if rs != [] {
      FrontAndLast(rs);
      SharedIsHistory(rs[..|rs| - 1], actorLimit, globalLimit);
      SharedHistoryStep(rs[..|rs| - 1], rs[|rs| - 1], actorLimit, globalLimit);
    }
  }

  lemma SharedHistoryStep(rs: seq<Request>, r: Request, actorLimit: int, globalLimit: int)
    requires Nondecreasing(rs + [r]) && SinceEpoch(rs) && SinceEpoch(rs + [r]) && r.at >= 0.0
    requires FlooredRequests(SharedAdmissions(rs, actorLimit, globalLimit))
          == Admissions(Stamps(InMillis(rs)), Limits(actorLimit, globalLimit))
    ensures FlooredRequests(SharedAdmissions(rs + [r], actorLimit, globalLimit))
         == Admissions(Stamps(InMillis(rs + [r])), Limits(actorLimit, globalLimit))
  {
    CodeIsDecision(rs, r, actorLimit, globalLimit);
    SharedLast(rs, r, actorLimit, globalLimit);
    FlooredAppend(SharedAdmissions(rs, actorLimit, globalLimit), r);
    StampsLast(rs, r);
    AdmitLast(Stamps(InMillis(rs)), Stamped(AtMillis(r)), Limits(actorLimit, globalLimit));
  }

  lemma StampsLast(rs: seq<Request>, r: Request)
    requires SinceEpoch(rs) && r.at >= 0.0
    ensures SinceEpoch(rs + [r])
    ensures Stamps(InMillis(rs + [r])) == Stamps(InMillis(rs)) + [Stamped(AtMillis(r))]
  {
    var qs := InMillis(rs + [r]);
    assert qs[..|qs| - 1] == InMillis(rs);
  }

  /** While the global quota denies nothing, an actor's shared admissions depend on its own
      requests only. */
  lemma {:induction false} SharedActorIsAlone(rs: seq<Request>, actorLimit: int, globalLimit: int, actor: string)
    requires Nondecreasing(rs) && SinceEpoch(rs) && SharedNeverBinds(rs, actorLimit, globalLimit)
    ensures TimesOf(SharedAdmissions(rs, actorLimit, globalLimit), actor)
         == GreedyShared(TimesOf(rs, actor), actorLimit)
  {
    if rs != [] {
      var front, r := rs[..|rs| - 1], rs[|rs| - 1];
      FrontAndLast(rs);
      NondecreasingFront(rs);
      SharedActorIsAlone(front, actorLimit, globalLimit, actor);
      SharedAloneStep(front, r, actorLimit, globalLimit, actor);
    }
  }

  lemma SharedLast(rs: seq<Request>, r: Request, actorLimit: int, globalLimit: int)
    requires SinceEpoch(rs) && r.at >= 0.0
    ensures SinceEpoch(rs + [r])
    ensures SharedAdmissions(rs + [r], actorLimit, globalLimit)
         == Extend(SharedAdmissions(rs, actorLimit, globalLimit), r, VerdictOf(Code(rs, r, actorLimit, globalLimit)))
  {
    assert (rs + [r])[..|rs|] == rs;
  }

  lemma SharedAloneStep(rs: seq<Request>, r: Request, actorLimit: int, globalLimit: int, actor: string)
    requires Nondecreasing(rs) && Nondecreasing(rs + [r]) && SinceEpoch(rs) && SinceEpoch(rs + [r]) && r.at >= 0.0
    requires Code(rs, r, actorLimit, globalLimit) != 3
    requires TimesOf(SharedAdmissions(rs, actorLimit, globalLimit), actor)
          == GreedyShared(TimesOf(rs, actor), actorLimit)
    ensures TimesOf(SharedAdmissions(rs + [r], actorLimit, globalLimit), actor)
         == GreedyShared(TimesOf(rs + [r], actor), actorLimit)
  {
    var h, ts := SharedAdmissions(rs, actorLimit, globalLimit), TimesOf(rs, actor);
    SharedLast(rs, r, actorLimit, globalLimit);
    TimesAppend(h, r, actor);
    TimesAppend(rs, r, actor);
    if r.actor == actor {
      SharedDecision(rs, r, actorLimit, globalLimit);
      GreedyStep(ts, r.at, actorLimit);
    }
  }

  lemma SharedDecision(rs: seq<Request>, r: Request, actorLimit: int, globalLimit: int)
    requires Nondecreasing(rs) && Nondecreasing(rs + [r]) && SinceEpoch(rs) && SinceEpoch(rs + [r]) && r.at >= 0.0
    requires Code(rs, r, actorLimit, globalLimit) != 3
    ensures VerdictOf(Code(rs, r, actorLimit, globalLimit)) == Admitted
       <==> CountFloored(TimesOf(SharedAdmissions(rs, actorLimit, globalLimit), r.actor), r.at) < actorLimit
  {
    var g, mine := Admissions(Stamps(InMillis(rs)), Limits(actorLimit, globalLimit)),
                   TimesOf(SharedAdmissions(rs, actorLimit, globalLimit), r.actor);
    var verdict := VerdictOf(Code(rs, r, actorLimit, globalLimit));
    assert verdict == Decide(g, Stamped(AtMillis(r)), Limits(actorLimit, globalLimit)) && verdict != GlobalQuota by {
      CodeIsDecision(rs, r, actorLimit, globalLimit);
    }
    assert TimesOf(g, r.actor) == Floored(mine) by {
      SharedIsHistory(rs, actorLimit, globalLimit);
      FlooredTimesOf(SharedAdmissions(rs, actorLimit, globalLimit), r.actor);
    }
    ActorDecides(g, mine, r, actorLimit, globalLimit, verdict);
  }

  lemma ActorDecides(g: seq<Request>, mine: seq<real>, r: Request, actorLimit: int, globalLimit: int, verdict: Verdict)
    requires r.at >= 0.0 && TimesOf(g, r.actor) == Floored(mine)
    requires verdict == Decide(g, Stamped(AtMillis(r)), Limits(actorLimit, globalLimit)) && verdict != GlobalQuota
    ensures verdict == Admitted <==> CountFloored(mine, r.at) < actorLimit
  {
  }

  /** The two limiters on the same requests, at their true times in seconds: while the shared
      global quota denies nothing, the shared limiter admits an actor's k-th request no later
      than the in-process limiter does, whatever global limit that one has. */
  lemma RedisIsNeverLater(rs: seq<Request>, actorLimit: int, globalLimit: int, localGlobalLimit: int, actor: string)
    requires Nondecreasing(rs) && SinceEpoch(rs) && SharedNeverBinds(rs, actorLimit, globalLimit)
    ensures NeverLater(TimesOf(SharedAdmissions(rs, actorLimit, globalLimit), actor),
                       TimesOf(Admissions(rs, Policy(60.0, actorLimit, localGlobalLimit)), actor))
  {
    SharedActorIsAlone(rs, actorLimit, globalLimit, actor);
    LocalIsNeverEarlier(rs, Policy(60.0, actorLimit, localGlobalLimit), actor);
  }

  lemma {:induction false} RequestsBefore(rs: seq<Request>, start: real)
    requires Nondecreasing(rs)
    ensures Before(Times(rs), ClockAfter(rs, start))
  {
    if rs != [] {
      var front, r := rs[..|rs| - 1], rs[|rs| - 1];
      NondecreasingFront(rs);
      RequestsBefore(front, r.at);
      BeforeLater(Times(front), ClockAfter(front, r.at), r.at);
      BeforeAppend(Times(front), r.at);
    }
  }
}
