/** Read tool calls that overlap. A call runs on the event loop and suspends at every
    progress message; between two suspensions it is not interrupted. */
module GateProtocol {
  import opened Collections
  import opened Gate
  import C = ConnectionManagers
  import H = RateHistory
  import L = LocalLimiter
  import P = Pool
  import S = Sessions

  /** Where a call stands: each state is a suspension, named after what comes next. */
  datatype Pc =
    | Arriving                                              // authorisation and session touch
    | Rating(actor: string)                                 // the rate limiter
    | Guarding(actor: string, at: real)                     // admitted at that time; the write guard
    | Reading(actor: string, at: real)                      // the read
    | Finishing(actor: string, answer: Answer, rows: nat)   // the audit event
    | Done(actor: string, answer: Answer, rows: nat)

  /** `touches` and `requests` list what reached the session manager and the limiter, in the
      order of their locks, and `finished` the calls in the order of their completion. */
  datatype System = System(gate: State, pcs: seq<Pc>, touches: seq<S.Op>, requests: seq<H.Request>, finished: seq<nat>)

  /** A call goes on: the clock it reads, and whether its progress message was delivered. Or
      somebody else, a health check say, has left the pool in another state. */
  datatype Action = Resume(who: nat, now: real, delivered: bool) | Elsewhere(pool: P.Pool, nextId: P.Conn)

  function Start(calls: nat): System {
    System(Gate.Init(), seq(calls, _ => Arriving), [], [], [])
  }

  /** The call raises: a permission error is counted, and what remains is the audit event. */
  function Raise(s: System, i: nat, actor: string, why: Refusal, rows: nat): System
    requires i < |s.pcs|
  {
    s.(gate := Counted(s.gate, Refused(why)), pcs := s.pcs[i := Finishing(actor, Refused(why), rows)])
  }

  function Authorize(cfg: Config, call: Call, s: System, i: nat, now: real): System
    requires i < |s.pcs|
  {
    if call.authorization.AuthFailed? then Raise(s, i, call.actor, NotAuthorized, 0)
    else
      var actor := call.authorization.name;
      var (g, accepted) := Touched(s.gate, actor, call, now, cfg);
      var t := s.(gate := g, touches := s.touches + [S.Touching(S.Touch(actor, Key(call), now))]);
      if accepted then t.(pcs := t.pcs[i := Rating(actor)]) else Raise(t, i, actor, SessionLimit, 0)
  }

  function Rate(cfg: Config, s: System, i: nat, actor: string, now: real): System
    requires i < |s.pcs|
  {
    var (g, verdict) := Rated(s.gate, actor, now, cfg);
    var t := s.(gate := g, requests := s.requests + [H.Request(actor, now)]);
    if verdict.Admitted? then t.(pcs := t.pcs[i := Guarding(actor, now)]) else Raise(t, i, actor, RateLimit, 0)
  }

  function Read(cfg: Config, call: Call, s: System, i: nat, actor: string, at: real): System
    requires i < |s.pcs|
  {
    var (g, answer) := Fetched(s.gate, actor, at, call, cfg);
    s.(gate := g, pcs := s.pcs[i := Finishing(actor, answer, RowCount(answer))])
  }

  function Finish(call: Call, s: System, i: nat, actor: string, answer: Answer, rows: nat): System
    requires i < |s.pcs|
  {
    s.(gate := Audited(s.gate, call, actor, answer, rows), pcs := s.pcs[i := Done(actor, answer, rows)],
       finished := s.finished + [i])
  }

  predicate Resumes(calls: seq<Call>, s: System, a: Action) {
    |calls| == |s.pcs| && a.Resume? && a.who < |calls|
  }

  /** One segment of a call. A message that cannot be sent raises like any other error; one
      about an error that is already being raised changes nothing. */
  function Apply(cfg: Config, calls: seq<Call>, s: System, a: Action): System
    requires Resumes(calls, s, a)
  {
    var i, call := a.who, calls[a.who];
    match s.pcs[i]
    case Arriving => if a.delivered then Authorize(cfg, call, s, i, a.now) else Raise(s, i, call.actor, NotDelivered, 0)
    case Rating(actor) => if a.delivered then Rate(cfg, s, i, actor, a.now) else Raise(s, i, actor, NotDelivered, 0)
    case Guarding(actor, at) =>
      if !a.delivered then Raise(s, i, actor, NotDelivered, 0)
      else if call.writeAllowed then s.(pcs := s.pcs[i := Reading(actor, at)])
      else Raise(s, i, actor, WriteBlocked, 0)
    case Reading(actor, at) =>
      if a.delivered then Read(cfg, call, s, i, actor, at) else Raise(s, i, actor, NotDelivered, 0)
    case Finishing(actor, answer, rows) =>
      if answer.Rows? && !a.delivered then Raise(s, i, actor, NotDelivered, rows)
      else Finish(call, s, i, actor, answer, rows)
    case Done(_, _, _) => s
  }

  ghost function Next(cfg: Config, calls: seq<Call>, s: System, a: Action): System
    requires |calls| == |s.pcs|
  {
    match a
    case Resume(who, _, _) => if who < |calls| then Apply(cfg, calls, s, a) else s
    case Elsewhere(pool, nextId) =>
      if pool.Valid() && C.IdsBelow(pool, nextId) then s.(gate := s.gate.(pool := pool, nextId := nextId)) else s
  }

  /** Any list of actions is a run. */
  ghost function After(cfg: Config, calls: seq<Call>, run: seq<Action>): (s: System)
    ensures |s.pcs| == |calls|
  {
    if run == [] then Start(|calls|) else Next(cfg, calls, After(cfg, calls, run[..|run| - 1]), run[|run| - 1])
  }

  // ------------------------------------------------------------ audit

  ghost predicate IsDone(pcs: seq<Pc>, i: nat) {
    i < |pcs| && pcs[i].Done?
  }

  ghost predicate EventOf(event: AuditEvent, call: Call, pc: Pc) {
    && pc.Done? && event.requestId == call.requestId && event.actor == pc.actor && event.rows == pc.rows
    && event.decision == (if pc.answer.Rows? then Allow else Deny(pc.answer.why))
    && (pc.answer.Rows? ==> pc.rows == pc.answer.count)
  }

  ghost predicate EventsMatch(calls: seq<Call>, s: System)
    requires |calls| == |s.pcs|
  {
    && |s.gate.audit| == |s.finished|
    && forall j :: 0 <= j < |s.finished| ==>
         s.finished[j] < |calls| && EventOf(s.gate.audit[j], calls[s.finished[j]], s.pcs[s.finished[j]])
  }

  ghost predicate Complete(s: System) {
    NoDup(s.finished) && forall i: nat :: i in s.finished <==> IsDone(s.pcs, i)
  }

  /** The rows of a call about to be audited are those it fetched. */
  ghost predicate RowsMatch(s: System) {
    forall i :: 0 <= i < |s.pcs| && s.pcs[i].Finishing? && s.pcs[i].answer.Rows? ==>
      s.pcs[i].rows == s.pcs[i].answer.count
  }

  ghost predicate Auditing(calls: seq<Call>, s: System) {
    |calls| == |s.pcs| && EventsMatch(calls, s) && Complete(s) && RowsMatch(s)
  }

  /** A segment moves its own call only, and audits exactly when it is the last one. */
  lemma SegmentAudits(cfg: Config, calls: seq<Call>, s: System, a: Action)
    requires Resumes(calls, s, a) && !s.pcs[a.who].Done?
    ensures var t, pc := Apply(cfg, calls, s, a), s.pcs[a.who];
      && |t.pcs| == |s.pcs| && (forall j :: 0 <= j < |s.pcs| && j != a.who ==> t.pcs[j] == s.pcs[j])
      && (if t.pcs[a.who].Done? then pc.Finishing? && t == Finish(calls[a.who], s, a.who, pc.actor, pc.answer, pc.rows)
          else t.finished == s.finished && t.gate.audit == s.gate.audit)
  {
  }

  lemma AuditStep(cfg: Config, calls: seq<Call>, s: System, a: Action)
    requires Auditing(calls, s) && Resumes(calls, s, a) && !s.pcs[a.who].Done?
    ensures Auditing(calls, Apply(cfg, calls, s, a))
  {
    var t := Apply(cfg, calls, s, a);
    SegmentAudits(cfg, calls, s, a);
    assert !IsDone(s.pcs, a.who);
    assert a.who !in s.finished;
    assert EventsMatch(calls, t) by {
      forall j | 0 <= j < |s.finished|
        ensures EventOf(t.gate.audit[j], calls[s.finished[j]], t.pcs[s.finished[j]])
      {
        assert s.finished[j] != a.who;
      }
    }
    assert Complete(t) by {
      NoDupAppend(s.finished, a.who);
      forall i: nat ensures i in t.finished <==> IsDone(t.pcs, i) {
        assert i in s.finished <==> IsDone(s.pcs, i);
      }
    }
  }

  lemma {:induction false} RunAudits(cfg: Config, calls: seq<Call>, run: seq<Action>)
    ensures Auditing(calls, After(cfg, calls, run))
  {
    if run == [] {
      forall i: nat ensures !IsDone(Start(|calls|).pcs, i) {
      }
    } else {
      var s, a := After(cfg, calls, run[..|run| - 1]), run[|run| - 1];
      RunAudits(cfg, calls, run[..|run| - 1]);
      if Resumes(calls, s, a) && !s.pcs[a.who].Done? {
        AuditStep(cfg, calls, s, a);
      }
    }
  }

  /** However calls overlap, there is exactly one audit event per finished call and none for
      the others, in the order of completion; it says "allow" exactly when the call returned
      normally. */
  lemma OneAuditEventPerCall(cfg: Config, calls: seq<Call>, run: seq<Action>)
    ensures var s := After(cfg, calls, run);
      && |s.gate.audit| == |s.finished| && NoDup(s.finished)
      && (forall i: nat :: i in s.finished <==> IsDone(s.pcs, i))
      && (forall j :: 0 <= j < |s.finished| ==>
            var i, event := s.finished[j], s.gate.audit[j];
            && i < |calls| && s.pcs[i].Done? && event.requestId == calls[i].requestId && event.actor == s.pcs[i].actor
            && (event.decision == Allow <==> s.pcs[i].answer.Rows?)
            && (s.pcs[i].answer.Rows? ==> event.rows == s.pcs[i].answer.count))
  {
    RunAudits(cfg, calls, run);
    var s := After(cfg, calls, run);
    forall j | 0 <= j < |s.finished|
      ensures s.finished[j] < |calls| && EventOf(s.gate.audit[j], calls[s.finished[j]], s.pcs[s.finished[j]])
    {
    }
  }

  // ------------------------------------------------------------ checks before the pool

  /** How the acting call's own state changes. */
  lemma SegmentMoves(cfg: Config, calls: seq<Call>, s: System, a: Action)
    requires Resumes(calls, s, a)
    ensures var pc, t := s.pcs[a.who], Apply(cfg, calls, s, a); var pc' := t.pcs[a.who];
      && |t.pcs| == |s.pcs| && t.pcs == s.pcs[a.who := pc']
      && (pc'.Rating? ==> pc.Arriving? && a.delivered && TouchAccepted(cfg, calls[a.who], s, a.now)
                          && calls[a.who].authorization == Actor(pc'.actor))
      && (pc'.Guarding? ==> pc.Rating? && a.delivered)
      && (pc'.Reading? ==> pc == Guarding(pc'.actor, pc'.at) && calls[a.who].writeAllowed)
  {
  }

  /** The session manager accepts a touch on behalf of the call. */
  ghost predicate TouchAccepted(cfg: Config, call: Call, s: System, now: real) {
    && call.authorization.Actor?
    && S.TouchStep(s.gate.sessions, S.Touch(call.authorization.name, Key(call), now), cfg.sessions).1
  }

  /** At step k of the run the call touched its session, and was accepted. */
  ghost predicate TouchedAt(cfg: Config, calls: seq<Call>, run: seq<Action>, i: nat, k: nat) {
    && i < |calls| && k < |run| && run[k].Resume? && run[k].who == i && run[k].delivered
    && TouchAccepted(cfg, calls[i], After(cfg, calls, run[..k]), run[k].now)
  }

  ghost predicate HasTouched(cfg: Config, calls: seq<Call>, run: seq<Action>, i: nat) {
    exists k: nat :: TouchedAt(cfg, calls, run, i, k)
  }

  /** The call has got beyond its session touch and not yet back from the read. */
  predicate UnderWay(pc: Pc) {
    pc.Rating? || pc.Guarding? || pc.Reading?
  }

  lemma TouchedEarlier(cfg: Config, calls: seq<Call>, run: seq<Action>, i: nat)
    requires run != [] && HasTouched(cfg, calls, run[..|run| - 1], i)
    ensures HasTouched(cfg, calls, run, i)
  {
    var front := run[..|run| - 1];
    var k: nat :| TouchedAt(cfg, calls, front, i, k);
    assert front[..k] == run[..k];
    assert TouchedAt(cfg, calls, run, i, k);
  }

  /** Whoever is under way has had its session touch accepted. */
  lemma {:induction false} UnderWayHasTouched(cfg: Config, calls: seq<Call>, run: seq<Action>, i: nat)
    requires i < |calls| && UnderWay(After(cfg, calls, run).pcs[i])
    ensures HasTouched(cfg, calls, run, i)
  {
    if run != [] {
      var front, a := run[..|run| - 1], run[|run| - 1];
      var s := After(cfg, calls, front);
      if Resumes(calls, s, a) {
        SegmentMoves(cfg, calls, s, a);
      }
      if UnderWay(s.pcs[i]) {
        UnderWayHasTouched(cfg, calls, front, i);
        TouchedEarlier(cfg, calls, run, i);
      } else {
        assert TouchedAt(cfg, calls, run, i, |run| - 1);
      }
    }
  }

  /** What a call standing there has passed since. */
  ghost predicate Vouched(cfg: Config, call: Call, s: System, pc: Pc) {
    match pc
    case Rating(actor) => call.authorization == Actor(actor)
    case Guarding(actor, at) => call.authorization == Actor(actor) && Admitted(cfg, s, actor, at)
    case Reading(actor, at) => call.authorization == Actor(actor) && Admitted(cfg, s, actor, at) && call.writeAllowed
    case _ => true
  }

  /** The limiter's history has an admission of the actor at that time. */
  ghost predicate Admitted(cfg: Config, s: System, actor: string, at: real) {
    H.Request(actor, at) in H.Admissions(s.requests, cfg.rates)
  }

  ghost predicate AllVouched(cfg: Config, calls: seq<Call>, s: System) {
    |calls| == |s.pcs| && forall i :: 0 <= i < |calls| ==> Vouched(cfg, calls[i], s, s.pcs[i])
  }

  /** The limiter's queues are those of its requests. */
  ghost predicate QueuesMatch(cfg: Config, s: System) {
    s.gate.buckets == L.After(s.requests, cfg.rates)
  }

  lemma AfterLast(rs: seq<H.Request>, r: H.Request, p: H.Policy)
    ensures L.After(rs + [r], p) == L.AllowStep(L.After(rs, p), r, p).0
    ensures H.Admissions(rs + [r], p) == H.Extend(H.Admissions(rs, p), r, H.Decide(H.Admissions(rs, p), r, p))
  {
    assert (rs + [r])[..|rs|] == rs;
  }

  /** A segment other than rating leaves the limiter alone. */
  lemma OnlyRatingRates(cfg: Config, calls: seq<Call>, s: System, a: Action)
    requires Resumes(calls, s, a) && !(s.pcs[a.who].Rating? && a.delivered)
    ensures var t := Apply(cfg, calls, s, a); t.requests == s.requests && t.gate.buckets == s.gate.buckets
  {
  }

  /** A segment other than reading leaves the pool and the executions alone. */
  lemma OnlyReadingReads(cfg: Config, calls: seq<Call>, s: System, a: Action)
    requires Resumes(calls, s, a) && !(s.pcs[a.who].Reading? && a.delivered)
    ensures var g, h := s.gate, Apply(cfg, calls, s, a).gate;
      h.pool == g.pool && h.nextId == g.nextId && h.executions == g.executions
  {
  }

  /** What rating does: the limiter decides by its history. */
  lemma RatingEffect(cfg: Config, calls: seq<Call>, s: System, a: Action)
    requires Resumes(calls, s, a) && s.pcs[a.who].Rating? && a.delivered && QueuesMatch(cfg, s)
    requires H.Nondecreasing(Apply(cfg, calls, s, a).requests)
    ensures var t, r := Apply(cfg, calls, s, a), H.Request(s.pcs[a.who].actor, a.now);
      var h, g := H.Admissions(s.requests, cfg.rates), H.Admissions(t.requests, cfg.rates);
      && t.requests == s.requests + [r] && QueuesMatch(cfg, t)
      && (if t.pcs[a.who].Guarding? then t.pcs[a.who] == Guarding(r.actor, r.at) && g == h + [r]
          else t.pcs[a.who].Finishing? && g == h)
  {
    var r := H.Request(s.pcs[a.who].actor, a.now);
    AfterLast(s.requests, r, cfg.rates);
    L.AllowRefinesHistory(s.requests, r, cfg.rates);
  }

  lemma VouchedStep(cfg: Config, calls: seq<Call>, s: System, a: Action)
    requires AllVouched(cfg, calls, s) && QueuesMatch(cfg, s) && Resumes(calls, s, a)
    requires H.Nondecreasing(Apply(cfg, calls, s, a).requests)
    ensures AllVouched(cfg, calls, Apply(cfg, calls, s, a)) && QueuesMatch(cfg, Apply(cfg, calls, s, a))
  {
    var t := Apply(cfg, calls, s, a);
    AdmissionsStay(cfg, calls, s, a);
    SegmentMoves(cfg, calls, s, a);
    forall i | 0 <= i < |calls| ensures Vouched(cfg, calls[i], t, t.pcs[i]) {
      assert Vouched(cfg, calls[i], s, s.pcs[i]);
      if i == a.who {
        ActorVouched(cfg, calls, s, a);
      } else {
        VouchedStays(cfg, calls[i], s, t, s.pcs[i]);
      }
    }
  }

  lemma AdmissionsStay(cfg: Config, calls: seq<Call>, s: System, a: Action)
    requires QueuesMatch(cfg, s) && Resumes(calls, s, a)
    requires H.Nondecreasing(Apply(cfg, calls, s, a).requests)
    ensures QueuesMatch(cfg, Apply(cfg, calls, s, a))
    ensures H.Admissions(s.requests, cfg.rates) <= H.Admissions(Apply(cfg, calls, s, a).requests, cfg.rates)
  {
    if s.pcs[a.who].Rating? && a.delivered {
      RatingEffect(cfg, calls, s, a);
    } else {
      OnlyRatingRates(cfg, calls, s, a);
    }
  }

  lemma VouchedStays(cfg: Config, call: Call, s: System, t: System, pc: Pc)
    requires Vouched(cfg, call, s, pc) && H.Admissions(s.requests, cfg.rates) <= H.Admissions(t.requests, cfg.rates)
    ensures Vouched(cfg, call, t, pc)
  {
  }

  lemma ActorVouched(cfg: Config, calls: seq<Call>, s: System, a: Action)
    requires Resumes(calls, s, a) && QueuesMatch(cfg, s) && Vouched(cfg, calls[a.who], s, s.pcs[a.who])
    requires H.Nondecreasing(Apply(cfg, calls, s, a).requests)
    ensures var t := Apply(cfg, calls, s, a); Vouched(cfg, calls[a.who], t, t.pcs[a.who])
  {
    if s.pcs[a.who].Rating? && a.delivered {
      RatingEffect(cfg, calls, s, a);
    } else {
      OnlyRatingRates(cfg, calls, s, a);
    }
  }

  /** The limiter reads a clock that does not go back in the order of its lock. */
  ghost predicate ClockInOrder(cfg: Config, calls: seq<Call>, run: seq<Action>) {
    H.Nondecreasing(After(cfg, calls, run).requests)
  }

  lemma ClockInOrderFront(cfg: Config, calls: seq<Call>, run: seq<Action>)
    requires run != [] && ClockInOrder(cfg, calls, run)
    ensures ClockInOrder(cfg, calls, run[..|run| - 1])
  {
    var s, a := After(cfg, calls, run[..|run| - 1]), run[|run| - 1];
    if Resumes(calls, s, a) {
      RequestsGrow(cfg, calls, s, a);
    }
  }

  lemma RequestsGrow(cfg: Config, calls: seq<Call>, s: System, a: Action)
    requires Resumes(calls, s, a)
    ensures s.requests <= Apply(cfg, calls, s, a).requests
  {
    if !(s.pcs[a.who].Rating? && a.delivered) {
      OnlyRatingRates(cfg, calls, s, a);
    }
  }

  lemma {:induction false} RunIsVouched(cfg: Config, calls: seq<Call>, run: seq<Action>)
    requires ClockInOrder(cfg, calls, run)
    ensures AllVouched(cfg, calls, After(cfg, calls, run)) && QueuesMatch(cfg, After(cfg, calls, run))
  {
    if run != [] {
      var s, a := After(cfg, calls, run[..|run| - 1]), run[|run| - 1];
      ClockInOrderFront(cfg, calls, run);
      RunIsVouched(cfg, calls, run[..|run| - 1]);
      if Resumes(calls, s, a) {
        VouchedStep(cfg, calls, s, a);
      } else {
        ElsewhereVouches(cfg, calls, s, After(cfg, calls, run));
      }
    }
  }

  lemma ElsewhereVouches(cfg: Config, calls: seq<Call>, s: System, t: System)
    requires AllVouched(cfg, calls, s) && t.pcs == s.pcs && t.requests == s.requests
    ensures AllVouched(cfg, calls, t)
  {
    forall i | 0 <= i < |calls| ensures Vouched(cfg, calls[i], t, t.pcs[i]) {
      assert Vouched(cfg, calls[i], s, s.pcs[i]);
    }
  }

  // ------------------------------------------------------------ the pool

  lemma PoolStep(cfg: Config, calls: seq<Call>, s: System, a: Action)
    requires PoolSound(s.gate) && Resumes(calls, s, a)
    ensures var t := Apply(cfg, calls, s, a);
      && PoolSound(t.gate) && t.gate.pool.inUse == s.gate.pool.inUse
      && (PoolRests(s.gate, cfg) ==> PoolRests(t.gate, cfg))
  {
    if s.pcs[a.who].Reading? && a.delivered {
      FetchedPool(s.gate, s.pcs[a.who].actor, s.pcs[a.who].at, calls[a.who], cfg);
    } else {
      OnlyReadingReads(cfg, calls, s, a);
    }
  }

  lemma {:induction false} RunIsSound(cfg: Config, calls: seq<Call>, run: seq<Action>)
    ensures PoolSound(After(cfg, calls, run).gate)
  {
    if run != [] {
      var s, a := After(cfg, calls, run[..|run| - 1]), run[|run| - 1];
      RunIsSound(cfg, calls, run[..|run| - 1]);
      if Resumes(calls, s, a) {
        PoolStep(cfg, calls, s, a);
      }
    }
  }

  /** When nobody else uses the pool: between segments no connection is in use, the pool is
      within its cap and its books balance. */
  lemma {:induction false} PoolRestsBetweenSegments(cfg: Config, calls: seq<Call>, run: seq<Action>)
    requires forall i :: 0 <= i < |run| ==> run[i].Resume?
    ensures PoolRests(After(cfg, calls, run).gate, cfg)
  {
    if run != [] {
      var s, a := After(cfg, calls, run[..|run| - 1]), run[|run| - 1];
      PoolRestsBetweenSegments(cfg, calls, run[..|run| - 1]);
      if Resumes(calls, s, a) {
        PoolStep(cfg, calls, s, a);
      }
    }
  }

  /** The call has passed every check, and gave a well-formed database name. */
  ghost predicate Checked(cfg: Config, calls: seq<Call>, run: seq<Action>, i: nat) {
    && i < |calls|
    && var s := After(cfg, calls, run);
    && s.pcs[i].Reading? && calls[i].authorization == Actor(s.pcs[i].actor)
    && HasTouched(cfg, calls, run, i)
    && Admitted(cfg, s, s.pcs[i].actor, s.pcs[i].at)
    && calls[i].writeAllowed
    && (calls[i].databaseName == "" || DatabaseOk(calls[i].databaseName))
  }

  /** However calls overlap and whoever else uses the pool: a call whose segment touches the
      pool has been authorised, has had a session touch accepted, has an admission of the
      limiter and the guard's consent, and gave a well-formed database name. The segment runs
      the operation at most twice, and leaves the connections in use as they were. */
  lemma OnlyCheckedCallsReachThePool(cfg: Config, calls: seq<Call>, run: seq<Action>, i: nat, now: real,
                                     delivered: bool)
    requires ClockInOrder(cfg, calls, run)
    ensures var s := After(cfg, calls, run); var t := Next(cfg, calls, s, Resume(i, now, delivered));
      && t.gate.pool.inUse == s.gate.pool.inUse
      && (t.gate.pool != s.gate.pool || t.gate.executions != s.gate.executions ==>
            && Checked(cfg, calls, run, i)
            && exists n: nat :: n <= 2
                 && t.gate.executions == s.gate.executions + Copies(H.Request(s.pcs[i].actor, s.pcs[i].at), n))
  {
    var s, a := After(cfg, calls, run), Resume(i, now, delivered);
    if i < |calls| {
      RunIsSound(cfg, calls, run);
      PoolStep(cfg, calls, s, a);
      RunIsVouched(cfg, calls, run);
      assert Vouched(cfg, calls[i], s, s.pcs[i]);
      if s.pcs[i].Reading? && delivered {
        UnderWayHasTouched(cfg, calls, run, i);
        FetchedEffect(s.gate, s.pcs[i].actor, s.pcs[i].at, calls[i], cfg);
      } else {
        OnlyReadingReads(cfg, calls, s, a);
      }
    }
  }

  // ------------------------------------------------------------ the end-to-end rate bound

  /** Whose requests are counted. */
  datatype Whose = Everyone | Only(actor: string)

  function Weight(actor: string, at: real, whose: Whose, lo: real, hi: real): nat {
    if (whose.Everyone? || whose.actor == actor) && lo <= at <= hi then 1 else 0
  }

  /** How many of the requests fall in the window. */
  function Within(h: seq<H.Request>, whose: Whose, lo: real, hi: real): nat {
    if h == [] then 0
    else Within(h[..|h| - 1], whose, lo, hi) + Weight(h[|h| - 1].actor, h[|h| - 1].at, whose, lo, hi)
  }

  lemma WithinAppend(h: seq<H.Request>, r: H.Request, whose: Whose, lo: real, hi: real)
    ensures Within(h + [r], whose, lo, hi) == Within(h, whose, lo, hi) + Weight(r.actor, r.at, whose, lo, hi)
  {
    assert (h + [r])[..|h|] == h;
  }

  lemma {:induction false} WithinIsCount(h: seq<H.Request>, actor: string, lo: real, hi: real)
    ensures Within(h, Only(actor), lo, hi) == H.CountBetween(H.TimesOf(h, actor), lo, hi)
    ensures Within(h, Everyone, lo, hi) == H.CountBetween(H.Times(h), lo, hi)
  {
    if h != [] {
      WithinIsCount(h[..|h| - 1], actor, lo, hi);
    }
  }

  lemma {:induction false} CopiesCount(h: seq<H.Request>, r: H.Request, n: nat, whose: Whose, lo: real, hi: real)
    ensures Within(h + Copies(r, n), whose, lo, hi)
         == Within(h, whose, lo, hi) + if Weight(r.actor, r.at, whose, lo, hi) == 1 then n else 0
  {
    if n == 0 {
      assert h + Copies(r, 0) == h;
    } else {
      CopiesCount(h, r, n - 1, whose, lo, hi);
      assert h + Copies(r, n) == (h + Copies(r, n - 1)) + [r];
      WithinAppend(h + Copies(r, n - 1), r, whose, lo, hi);
    }
  }

  /** An admission in the window that has not been used for a read yet. */
  function Unused(pc: Pc, whose: Whose, lo: real, hi: real): nat {
    if pc.Guarding? || pc.Reading? then Weight(pc.actor, pc.at, whose, lo, hi) else 0
  }

  function AllUnused(pcs: seq<Pc>, whose: Whose, lo: real, hi: real): nat {
    if pcs == [] then 0 else AllUnused(pcs[..|pcs| - 1], whose, lo, hi) + Unused(pcs[|pcs| - 1], whose, lo, hi)
  }

  lemma {:induction false} UnusedUpdate(pcs: seq<Pc>, i: nat, pc: Pc, whose: Whose, lo: real, hi: real)
    requires i < |pcs|
    ensures AllUnused(pcs[i := pc], whose, lo, hi) + Unused(pcs[i], whose, lo, hi)
         == AllUnused(pcs, whose, lo, hi) + Unused(pc, whose, lo, hi)
  {
    var last := |pcs| - 1;
    if i == last {
      assert pcs[i := pc][..last] == pcs[..last];
    } else {
      UnusedUpdate(pcs[..last], i, pc, whose, lo, hi);
      assert pcs[i := pc][..last] == pcs[..last][i := pc];
    }
  }

  ghost function Executed(s: System, whose: Whose, lo: real, hi: real): nat {
    Within(s.gate.executions, whose, lo, hi)
  }

  ghost function Admissions(cfg: Config, s: System, whose: Whose, lo: real, hi: real): nat {
    Within(H.Admissions(s.requests, cfg.rates), whose, lo, hi)
  }

  /** Every execution is paid for by an admission of its actor, two executions by one
      admission at most; what is not used yet is still to be spent. */
  ghost predicate Paid(cfg: Config, s: System, whose: Whose, lo: real, hi: real) {
    Executed(s, whose, lo, hi) + 2 * AllUnused(s.pcs, whose, lo, hi) <= 2 * Admissions(cfg, s, whose, lo, hi)
  }

  lemma ReadIsPaid(cfg: Config, calls: seq<Call>, s: System, a: Action, whose: Whose, lo: real, hi: real)
    requires Resumes(calls, s, a) && s.pcs[a.who].Reading? && a.delivered
    ensures Executed(Apply(cfg, calls, s, a), whose, lo, hi)
         <= Executed(s, whose, lo, hi) + 2 * Unused(s.pcs[a.who], whose, lo, hi)
  {
    var pc, t := s.pcs[a.who], Apply(cfg, calls, s, a);
    var r := H.Request(pc.actor, pc.at);
    FetchedEffect(s.gate, pc.actor, pc.at, calls[a.who], cfg);
    var n: nat :| n <= 2 && t.gate.executions == s.gate.executions + Copies(r, n);
    CopiesCount(s.gate.executions, r, n, whose, lo, hi);
  }

  lemma PaidStep(cfg: Config, calls: seq<Call>, s: System, a: Action, whose: Whose, lo: real, hi: real)
    requires QueuesMatch(cfg, s) && Paid(cfg, s, whose, lo, hi) && Resumes(calls, s, a)
    requires H.Nondecreasing(Apply(cfg, calls, s, a).requests)
    ensures Paid(cfg, Apply(cfg, calls, s, a), whose, lo, hi)
  {
    var pc, t := s.pcs[a.who], Apply(cfg, calls, s, a);
    SegmentMoves(cfg, calls, s, a);
    UnusedUpdate(s.pcs, a.who, t.pcs[a.who], whose, lo, hi);
    if pc.Rating? && a.delivered {
      RatingEffect(cfg, calls, s, a);
      WithinAppend(H.Admissions(s.requests, cfg.rates), H.Request(pc.actor, a.now), whose, lo, hi);
      OnlyReadingReads(cfg, calls, s, a);
    } else {
      OnlyRatingRates(cfg, calls, s, a);
      if pc.Reading? && a.delivered {
        ReadIsPaid(cfg, calls, s, a, whose, lo, hi);
      } else {
        OnlyReadingReads(cfg, calls, s, a);
      }
    }
  }

  lemma {:induction false} NothingUnused(pcs: seq<Pc>, whose: Whose, lo: real, hi: real)
    requires forall i :: 0 <= i < |pcs| ==> pcs[i].Arriving?
    ensures AllUnused(pcs, whose, lo, hi) == 0
  {
    if pcs != [] {
      NothingUnused(pcs[..|pcs| - 1], whose, lo, hi);
    }
  }

  /** However calls overlap and whatever happens to the pool, two executions at most for
      every admission: of one actor, and of all actors together. */
  lemma {:induction false} TwoPerAdmission(cfg: Config, calls: seq<Call>, run: seq<Action>, whose: Whose,
                                           lo: real, hi: real)
    requires ClockInOrder(cfg, calls, run)
    ensures Paid(cfg, After(cfg, calls, run), whose, lo, hi)
  {
    if run == [] {
      NothingUnused(Start(|calls|).pcs, whose, lo, hi);
    } else {
      var s, a := After(cfg, calls, run[..|run| - 1]), run[|run| - 1];
      ClockInOrderFront(cfg, calls, run);
      TwoPerAdmission(cfg, calls, run[..|run| - 1], whose, lo, hi);
      RunIsVouched(cfg, calls, run[..|run| - 1]);
      if Resumes(calls, s, a) {
        PaidStep(cfg, calls, s, a, whose, lo, hi);
      }
    }
  }

  function Quota(cfg: Config, whose: Whose): nat {
    H.AtLeastZero(if whose.Everyone? then cfg.rates.globalLimit else cfg.rates.actorLimit)
  }

  /** In every run of overlapping calls, the database operations run on behalf of admissions
      that fall in a closed window of the limiter's width number at most twice the limit,
      whenever they run: an actor's its own limit, all together the global one. */
  lemma ExecutionsAreBounded(cfg: Config, calls: seq<Call>, run: seq<Action>, whose: Whose, lo: real)
    requires ClockInOrder(cfg, calls, run)
    ensures Executed(After(cfg, calls, run), whose, lo, lo + cfg.rates.width) <= 2 * Quota(cfg, whose)
  {
    TwoPerAdmission(cfg, calls, run, whose, lo, lo + cfg.rates.width);
    AdmissionsAreBounded(cfg, After(cfg, calls, run), whose, lo);
  }

  lemma AdmissionsAreBounded(cfg: Config, s: System, whose: Whose, lo: real)
    requires H.Nondecreasing(s.requests)
    ensures Admissions(cfg, s, whose, lo, lo + cfg.rates.width) <= Quota(cfg, whose)
  {
    var actor := if whose.Only? then whose.actor else "";
    H.WindowBound(s.requests, cfg.rates, actor, lo);
    WithinIsCount(H.Admissions(s.requests, cfg.rates), actor, lo, lo + cfg.rates.width);
  }

  // ------------------------------------------------------------ one call alone

  /** Call i goes on n times, every message delivered and nobody else moving. */
  ghost function Resumed(cfg: Config, calls: seq<Call>, s: System, i: nat, now: real, n: nat): (t: System)
    requires |calls| == |s.pcs|
    decreases n
  {
    if n == 0 then s else Resumed(cfg, calls, Next(cfg, calls, s, Resume(i, now, true)), i, now, n - 1)
  }

  /** The call has ended with this answer, its effects being those of g. */
  ghost predicate EndsAs(call: Call, s: System, t: System, i: nat, g: State, answer: Answer)
    requires i < |s.pcs|
  {
    && t.gate == Audited(Counted(g, answer), call, ActorOf(call), answer, RowCount(answer))
    && t.pcs == s.pcs[i := Done(ActorOf(call), answer, RowCount(answer))]
  }

  lemma EndsFrom(call: Call, s: System, u: System, t: System, i: nat, g: State, answer: Answer)
    requires i < |s.pcs| == |u.pcs| && EndsAs(call, u, t, i, g, answer) && u.pcs == s.pcs[i := u.pcs[i]]
    ensures EndsAs(call, s, t, i, g, answer)
  {
    var end := Done(ActorOf(call), answer, RowCount(answer));
    assert s.pcs[i := u.pcs[i]][i := end] == s.pcs[i := end];
  }

  lemma {:induction false} DoneStays(cfg: Config, calls: seq<Call>, s: System, i: nat, now: real, n: nat)
    requires i < |calls| == |s.pcs| && s.pcs[i].Done?
    ensures Resumed(cfg, calls, s, i, now, n) == s
  {
    if n > 0 {
      DoneStays(cfg, calls, s, i, now, n - 1);
    }
  }

  lemma FinishesAlone(cfg: Config, calls: seq<Call>, s: System, i: nat, now: real, n: nat, g: State, answer: Answer)
    requires i < |calls| == |s.pcs| && n >= 1 && s.gate == Counted(g, answer)
    requires s.pcs[i] == Finishing(ActorOf(calls[i]), answer, RowCount(answer))
    ensures EndsAs(calls[i], s, Resumed(cfg, calls, s, i, now, n), i, g, answer)
  {
    DoneStays(cfg, calls, Next(cfg, calls, s, Resume(i, now, true)), i, now, n - 1);
  }

  lemma RaisesAlone(cfg: Config, calls: seq<Call>, s: System, i: nat, now: real, n: nat, g: State, why: Refusal)
    requires i < |calls| == |s.pcs| && n >= 2
    requires var t := Next(cfg, calls, s, Resume(i, now, true));
      t == Raise(s.(gate := g), i, ActorOf(calls[i]), why, 0).(touches := t.touches, requests := t.requests)
    ensures EndsAs(calls[i], s, Resumed(cfg, calls, s, i, now, n), i, g, Refused(why))
  {
    var t := Next(cfg, calls, s, Resume(i, now, true));
    FinishesAlone(cfg, calls, t, i, now, n - 1, g, Refused(why));
    EndsFrom(calls[i], s, t, Resumed(cfg, calls, s, i, now, n), i, g, Refused(why));
  }

  lemma ReadsAlone(cfg: Config, calls: seq<Call>, s: System, i: nat, now: real, n: nat, at: real)
    requires i < |calls| == |s.pcs| && n >= 2 && s.pcs[i] == Reading(ActorOf(calls[i]), at)
    ensures var (g, answer) := Fetched(s.gate, ActorOf(calls[i]), at, calls[i], cfg);
      EndsAs(calls[i], s, Resumed(cfg, calls, s, i, now, n), i, g, answer)
  {
    var (g, answer) := Fetched(s.gate, ActorOf(calls[i]), at, calls[i], cfg);
    var t := Next(cfg, calls, s, Resume(i, now, true));
    assert Counted(g, answer) == g;
    FinishesAlone(cfg, calls, t, i, now, n - 1, g, answer);
    EndsFrom(calls[i], s, t, Resumed(cfg, calls, s, i, now, n), i, g, answer);
  }

  lemma GuardsAlone(cfg: Config, calls: seq<Call>, s: System, i: nat, now: real, n: nat, at: real)
    requires i < |calls| == |s.pcs| && n >= 3 && s.pcs[i] == Guarding(ActorOf(calls[i]), at)
    ensures var (g, answer) := if calls[i].writeAllowed then Fetched(s.gate, ActorOf(calls[i]), at, calls[i], cfg)
                               else (s.gate, Refused(WriteBlocked));
      EndsAs(calls[i], s, Resumed(cfg, calls, s, i, now, n), i, g, answer)
  {
    var t := Next(cfg, calls, s, Resume(i, now, true));
    if calls[i].writeAllowed {
      ReadsAlone(cfg, calls, t, i, now, n - 1, at);
      var (g, answer) := Fetched(s.gate, ActorOf(calls[i]), at, calls[i], cfg);
      EndsFrom(calls[i], s, t, Resumed(cfg, calls, s, i, now, n), i, g, answer);
    } else {
      RaisesAlone(cfg, calls, s, i, now, n, s.gate, WriteBlocked);
    }
  }

  /** The sequential gate from the rate limiter on. */
  function RatedAttempt(cfg: Config, s: State, call: Call, actor: string, now: real): (State, Answer) {
    var (s2, verdict) := Rated(s, actor, now, cfg);
    if !verdict.Admitted? then (s2, Refused(RateLimit))
    else if !call.writeAllowed then (s2, Refused(WriteBlocked))
    else Fetched(s2, actor, now, call, cfg)
  }

  lemma RatesAlone(cfg: Config, calls: seq<Call>, s: System, i: nat, now: real, n: nat)
    requires i < |calls| == |s.pcs| && n >= 4 && s.pcs[i] == Rating(ActorOf(calls[i]))
    ensures var (g, answer) := RatedAttempt(cfg, s.gate, calls[i], ActorOf(calls[i]), now);
      EndsAs(calls[i], s, Resumed(cfg, calls, s, i, now, n), i, g, answer)
  {
    var t := Next(cfg, calls, s, Resume(i, now, true));
    var (g, verdict) := Rated(s.gate, ActorOf(calls[i]), now, cfg);
    if verdict.Admitted? {
      GuardsAlone(cfg, calls, t, i, now, n - 1, now);
      var (h, answer) := RatedAttempt(cfg, s.gate, calls[i], ActorOf(calls[i]), now);
      EndsFrom(calls[i], s, t, Resumed(cfg, calls, s, i, now, n), i, h, answer);
    } else {
      RaisesAlone(cfg, calls, s, i, now, n, g, RateLimit);
    }
  }

  /** A call that nothing interrupts is the atomic step of the sequential gate. */
  lemma AloneIsStep(cfg: Config, calls: seq<Call>, s: System, i: nat, now: real)
    requires i < |calls| == |s.pcs| && s.pcs[i].Arriving?
    ensures var t := Resumed(cfg, calls, s, i, now, 5); var (g, answer) := Step(s.gate, calls[i], now, cfg);
      t.gate == g && t.pcs == s.pcs[i := Done(ActorOf(calls[i]), answer, RowCount(answer))]
  {
    var call, t := calls[i], Next(cfg, calls, s, Resume(i, now, true));
    if call.authorization.AuthFailed? {
      RaisesAlone(cfg, calls, s, i, now, 5, s.gate, NotAuthorized);
    } else {
      var (g, accepted) := Touched(s.gate, call.authorization.name, call, now, cfg);
      if accepted {
        RatesAlone(cfg, calls, t, i, now, 4);
        var (h, answer) := RatedAttempt(cfg, g, call, ActorOf(call), now);
        EndsFrom(call, s, t, Resumed(cfg, calls, s, i, now, 5), i, h, answer);
      } else {
        RaisesAlone(cfg, calls, s, i, now, 5, g, SessionLimit);
      }
    }
  }
}
