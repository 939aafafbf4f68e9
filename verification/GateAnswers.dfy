/** What a read tool call answers, said of the call, the server's behaviour and the state it
    meets, without the gate's own functions: for a call alone and for overlapping calls. */
module GateAnswers {
  import opened Collections
  import opened Gate
  import opened GateProtocol
  import opened Text
  import C = ConnectionManagers
  import H = RateHistory
  import L = LocalLimiter
  import P = Pool
  import S = Sessions

  // ------------------------------------------------------------ the inputs of the checks

  /** No database name, or one that is not blank and has neither ';' nor "--". */
  ghost predicate NameOk(name: string) {
    name == "" ||
    ((exists i :: 0 <= i < |name| && !IsSpace(name[i])) && ';' !in name && forall i: nat :: !DashesAt(name, i))
  }

  ghost predicate DashesAt(name: string, i: nat) {
    i + 2 <= |name| && name[i..i + 2] == "--"
  }

  lemma DashesAre(name: string, i: nat)
    ensures DashesAt(name, i) <==> i + 1 < |name| && name[i] == '-' && name[i + 1] == '-'
  {
    if i + 2 <= |name| {
      assert name[i..i + 2] == [name[i], name[i + 1]];
    }
  }

  lemma NameOkIs(name: string)
    ensures name == "" || DatabaseOk(name) <==> NameOk(name)
  {
    if DatabaseOk(name) {
      forall i: nat ensures !DashesAt(name, i) {
        DashesAre(name, i);
      }
    }
    if name != "" && NameOk(name) {
      forall i | 0 <= i < |name|
        ensures name[i] != ';' && !(name[i] == '-' && i + 1 < |name| && name[i + 1] == '-')
      {
        DashesAre(name, i);
        assert name[i] in name && !DashesAt(name, i);
      }
      assert DatabaseOk(name);
    }
  }

  /** The touch that a call makes: under its session id, or else under its request id. */
  ghost function TouchOf(call: Call, now: real): S.Touch
    requires call.authorization.Actor?
  {
    S.Touch(call.authorization.name, if call.mcpSessionId == "" then call.requestId else call.mcpSessionId, now)
  }

  // ------------------------------------------------------------ the answer of a read

  ghost predicate RetriesAs(pool: P.Pool, pooled: bool, call: Call, poolMax: int, rest: seq<P.Conn>,
                            answer: Answer, runs: nat)
  {
    var used := |pool.inUse|;
    && C.Retries(pool, pooled, call.first, rest, poolMax)
    && answer == (if C.Succeeds(rest, used, pooled, call.second, poolMax) then Rows(call.second.rows)
                  else Refused(ReadError))
    && runs == (if C.Obtains(pool.available, used, pooled, call.first, poolMax) then 1 else 0)
             + (if C.Obtains(rest, used, pooled, call.second, poolMax) then 1 else 0)
  }

  /** The read of a call on a pool: the first attempt's rows if it gets a connection and does
      not raise; else, after a transient error, the second attempt's; else an error. */
  ghost predicate ReadsAs(pool: P.Pool, pooled: bool, call: Call, poolMax: int, answer: Answer, runs: nat) {
    var used := |pool.inUse|;
    if C.Succeeds(pool.available, used, pooled, call.first, poolMax) then answer == Rows(call.first.rows) && runs == 1
    else if call.first.transient then exists rest :: RetriesAs(pool, pooled, call, poolMax, rest, answer, runs)
    else
      && answer == Refused(ReadError)
      && runs == if C.Obtains(pool.available, used, pooled, call.first, poolMax) then 1 else 0
  }

  /** What a failed first attempt leaves idle is determined, and so is the answer. */
  lemma LeftIdleOnce(idle: seq<P.Conn>, rest: seq<P.Conn>, other: seq<P.Conn>, a: C.Attempt)
    requires C.LeftIdle(idle, rest, a) && C.LeftIdle(idle, other, a)
    ensures rest == other
  {
    assert C.SomeUsable(idle, a.usable) ==> idle[|rest|] in a.usable && idle[|other|] in a.usable;
    assert |rest| == |other|;
  }

  lemma ReadsAsOne(pool: P.Pool, pooled: bool, call: Call, poolMax: int, answer: Answer, runs: nat,
                   other: Answer, more: nat)
    requires ReadsAs(pool, pooled, call, poolMax, answer, runs) && ReadsAs(pool, pooled, call, poolMax, other, more)
    ensures answer == other && runs == more
  {
    if !C.Succeeds(pool.available, |pool.inUse|, pooled, call.first, poolMax) && call.first.transient {
      var rest :| RetriesAs(pool, pooled, call, poolMax, rest, answer, runs);
      var left :| RetriesAs(pool, pooled, call, poolMax, left, other, more);
      if pooled {
        LeftIdleOnce(pool.available, rest, left, call.first);
      }
    }
  }

  /** The call's read, in the state it finds: the answer, and what it adds to the executions. */
  ghost predicate ReadsIn(s: State, call: Call, cfg: Config, answer: Answer, runs: nat) {
    ReadsAs(s.pool, cfg.poolEnabled && call.databaseName == "", call, cfg.poolMax, answer, runs)
  }

  lemma FetchedAnswers(s: State, actor: string, at: real, call: Call, cfg: Config) returns (runs: nat)
    requires PoolSound(s) && NameOk(call.databaseName)
    ensures var (t, answer) := Fetched(s, actor, at, call, cfg);
      ReadsIn(s, call, cfg, answer, runs) && t.executions == s.executions + Copies(H.Request(actor, at), runs)
  {
    var pooled := cfg.poolEnabled && call.databaseName == "";
    NameOkIs(call.databaseName);
    var r := C.Read(s.pool, s.nextId, pooled, call.first, call.second, cfg.poolMax);
    var rest := C.ReadOutcome(s.pool, s.nextId, pooled, call.first, call.second, cfg.poolMax);
    C.OnceOutcome(s.pool, s.nextId, pooled, call.first, cfg.poolMax);
    runs := |r.executed|;
    var answer := Fetched(s, actor, at, call, cfg).1;
    assert call.first.transient && !C.Succeeds(s.pool.available, |s.pool.inUse|, pooled, call.first, cfg.poolMax) ==>
        RetriesAs(s.pool, pooled, call, cfg.poolMax, rest, answer, runs);
  }

  // ------------------------------------------------------------ a call alone

  /** The first check that fails gives the refusal; a call that passes all of them reads. */
  ghost predicate Answers(s: State, call: Call, now: real, cfg: Config, answer: Answer) {
    if call.authorization.AuthFailed? then answer == Refused(NotAuthorized)
    else if !S.TouchStep(s.sessions, TouchOf(call, now), cfg.sessions).1 then answer == Refused(SessionLimit)
    else if L.AllowStep(s.buckets, H.Request(call.authorization.name, now), cfg.rates).1 != H.Admitted
    then answer == Refused(RateLimit)
    else if !call.writeAllowed then answer == Refused(WriteBlocked)
    else if !NameOk(call.databaseName) then answer == Refused(BadDatabase)
    else exists runs: nat :: ReadsIn(s, call, cfg, answer, runs)
  }

  ghost predicate IsDenial(answer: Answer) {
    || answer == Refused(NotAuthorized) || answer == Refused(SessionLimit)
    || answer == Refused(RateLimit) || answer == Refused(WriteBlocked)
  }

  /** The audit event of an answer. */
  ghost predicate Reports(event: AuditEvent, call: Call, answer: Answer) {
    && event.requestId == call.requestId
    && event.actor == (if call.authorization.Actor? then call.authorization.name else call.actor)
    && match answer
       case Rows(count) => event.decision == Allow && event.rows == count
       case Refused(why) => event.decision == Deny(why) && event.rows == 0
  }

  /** A call alone gives the answer that the call and the state determine, reports it in one
      audit event, and counts it as denied exactly when one of the four checks refused it. The
      session manager sees it once it is authorised, the limiter once its touch is accepted. */
  lemma StepAnswers(s: State, call: Call, now: real, cfg: Config)
    requires PoolSound(s)
    ensures var (t, answer) := Step(s, call, now, cfg);
      && Answers(s, call, now, cfg, answer)
      && |t.audit| == |s.audit| + 1 && t.audit[..|s.audit|] == s.audit && Reports(t.audit[|s.audit|], call, answer)
      && t.denied == s.denied + (if IsDenial(answer) then 1 else 0)
      && t.sessions == (if call.authorization.Actor? then S.TouchStep(s.sessions, TouchOf(call, now), cfg.sessions).0
                        else s.sessions)
      && t.buckets == (if call.authorization.Actor? && answer != Refused(SessionLimit)
                       then L.AllowStep(s.buckets, H.Request(call.authorization.name, now), cfg.rates).0
                       else s.buckets)
  {
    NameOkIs(call.databaseName);
    if call.authorization.Actor? {
      var actor := call.authorization.name;
      var s1 := Touched(s, actor, call, now, cfg).0;
      var s2 := Rated(s1, actor, now, cfg).0;
      FetchedEffect(s2, actor, now, call, cfg);
      if NameOk(call.databaseName) {
        var runs := FetchedAnswers(s2, actor, now, call, cfg);
        assert ReadsIn(s, call, cfg, Fetched(s2, actor, now, call, cfg).1, runs);
      }
    }
  }

  // ------------------------------------------------------------ overlapping calls

  /** What a resumed call decides, standing there in that state: its answer, once it has one. */
  ghost predicate Decides(cfg: Config, call: Call, s: State, pc: Pc, now: real, delivered: bool, answer: Answer) {
    if pc.Done? then false
    else if !delivered then answer == Refused(NotDelivered) && !(pc.Finishing? && pc.answer.Refused?)
    else
      match pc
      case Arriving =>
        if call.authorization.AuthFailed? then answer == Refused(NotAuthorized)
        else answer == Refused(SessionLimit) && !S.TouchStep(s.sessions, TouchOf(call, now), cfg.sessions).1
      case Rating(actor) =>
        answer == Refused(RateLimit) && L.AllowStep(s.buckets, H.Request(actor, now), cfg.rates).1 != H.Admitted
      case Guarding(_, _) => answer == Refused(WriteBlocked) && !call.writeAllowed
      case Reading(_, _) =>
        if NameOk(call.databaseName) then exists runs: nat :: ReadsIn(s, call, cfg, answer, runs)
        else answer == Refused(BadDatabase)
      case _ => false
  }

  ghost predicate DecidedAt(cfg: Config, calls: seq<Call>, run: seq<Action>, i: nat, k: nat, answer: Answer) {
    && i < |calls| && k < |run| && run[k].Resume? && run[k].who == i
    && var s := After(cfg, calls, run[..k]);
    Decides(cfg, calls[i], s.gate, s.pcs[i], run[k].now, run[k].delivered, answer)
  }

  ghost predicate Decided(cfg: Config, calls: seq<Call>, run: seq<Action>, i: nat, answer: Answer) {
    exists k: nat :: DecidedAt(cfg, calls, run, i, k, answer)
  }

  ghost predicate HasAnswer(pc: Pc) {
    pc.Finishing? || pc.Done?
  }

  /** A segment gives its call an answer by deciding it, or leaves the answer as it is. */
  lemma SegmentDecides(cfg: Config, calls: seq<Call>, s: System, a: Action)
    requires Resumes(calls, s, a) && PoolSound(s.gate)
    ensures var pc, pc' := s.pcs[a.who], Apply(cfg, calls, s, a).pcs[a.who];
      HasAnswer(pc') ==>
        || Decides(cfg, calls[a.who], s.gate, pc, a.now, a.delivered, pc'.answer)
        || (HasAnswer(pc) && pc'.answer == pc.answer)
  {
    var call, pc := calls[a.who], s.pcs[a.who];
    NameOkIs(call.databaseName);
    if pc.Reading? && a.delivered && NameOk(call.databaseName) {
      var runs := FetchedAnswers(s.gate, pc.actor, pc.at, call, cfg);
    }
  }

  lemma DecidedEarlier(cfg: Config, calls: seq<Call>, run: seq<Action>, i: nat, answer: Answer)
    requires run != [] && Decided(cfg, calls, run[..|run| - 1], i, answer)
    ensures Decided(cfg, calls, run, i, answer)
  {
    var front := run[..|run| - 1];
    var k: nat :| DecidedAt(cfg, calls, front, i, k, answer);
    assert front[..k] == run[..k];
    assert DecidedAt(cfg, calls, run, i, k, answer);
  }

  /** However calls overlap, every answer was decided at some step of its call: the rows that
      a call returns and the audit reports are those of the attempt that succeeded in the
      pool it found, and every refusal has its reason in the state at that step. */
  lemma {:induction false} EveryAnswerIsDecided(cfg: Config, calls: seq<Call>, run: seq<Action>, i: nat)
    requires i < |calls| && HasAnswer(After(cfg, calls, run).pcs[i])
    ensures Decided(cfg, calls, run, i, After(cfg, calls, run).pcs[i].answer)
  {
    if run != [] {
      var front, a := run[..|run| - 1], run[|run| - 1];
      var s, t := After(cfg, calls, front), After(cfg, calls, run);
      RunIsSound(cfg, calls, front);
      if Resumes(calls, s, a) {
        SegmentMoves(cfg, calls, s, a);
        SegmentDecides(cfg, calls, s, a);
      }
      if HasAnswer(s.pcs[i]) && s.pcs[i].answer == t.pcs[i].answer {
        EveryAnswerIsDecided(cfg, calls, front, i);
        DecidedEarlier(cfg, calls, run, i, t.pcs[i].answer);
      } else {
        assert DecidedAt(cfg, calls, run, i, |run| - 1, t.pcs[i].answer);
      }
    }
  }

  /** An audit event that says "allow" has the rows that its call read: at some step the call
      stood before its read, and an attempt on the pool it found gave that many rows. */
  lemma AllowedRowsWereRead(cfg: Config, calls: seq<Call>, run: seq<Action>, j: nat) returns (i: nat, k: nat)
    requires j < |After(cfg, calls, run).gate.audit| && After(cfg, calls, run).gate.audit[j].decision == Allow
    ensures var event := After(cfg, calls, run).gate.audit[j];
      && i < |calls| && event.requestId == calls[i].requestId
      && k < |run| && run[k].Resume? && run[k].who == i
      && var s := After(cfg, calls, run[..k]);
      && s.pcs[i].Reading? && NameOk(calls[i].databaseName)
      && exists runs: nat :: ReadsIn(s.gate, calls[i], cfg, Rows(event.rows), runs)
  {
    var s := After(cfg, calls, run);
    OneAuditEventPerCall(cfg, calls, run);
    i := s.finished[j];
    EveryAnswerIsDecided(cfg, calls, run, i);
    k :| DecidedAt(cfg, calls, run, i, k, s.pcs[i].answer);
  }

  // ------------------------------------------------------------ denials

  ghost function Denial(pc: Pc): nat {
    if HasAnswer(pc) && IsDenial(pc.answer) then 1 else 0
  }

  ghost function Denials(pcs: seq<Pc>): nat {
    if pcs == [] then 0 else Denials(pcs[..|pcs| - 1]) + Denial(pcs[|pcs| - 1])
  }

  lemma {:induction false} DenialsUpdate(pcs: seq<Pc>, i: nat, pc: Pc)
    requires i < |pcs|
    ensures Denials(pcs[i := pc]) + Denial(pcs[i]) == Denials(pcs) + Denial(pc)
  {
    var last := |pcs| - 1;
    if i == last {
      assert pcs[i := pc][..last] == pcs[..last];
    } else {
      DenialsUpdate(pcs[..last], i, pc);
      assert pcs[i := pc][..last] == pcs[..last][i := pc];
    }
  }

  lemma {:induction false} NoDenials(pcs: seq<Pc>)
    requires forall i :: 0 <= i < |pcs| ==> pcs[i].Arriving?
    ensures Denials(pcs) == 0
  {
    if pcs != [] {
      NoDenials(pcs[..|pcs| - 1]);
    }
  }

  lemma SegmentDenies(cfg: Config, calls: seq<Call>, s: System, a: Action)
    requires Resumes(calls, s, a)
    ensures var t := Apply(cfg, calls, s, a);
      t.gate.denied + Denial(s.pcs[a.who]) == s.gate.denied + Denial(t.pcs[a.who])
  {
    var pc := s.pcs[a.who];
    if pc.Reading? && a.delivered {
      FetchedDeniesNothing(s.gate, pc.actor, pc.at, calls[a.who], cfg);
    }
  }

  lemma FetchedDeniesNothing(s: State, actor: string, at: real, call: Call, cfg: Config)
    ensures var (t, answer) := Fetched(s, actor, at, call, cfg); t.denied == s.denied && !IsDenial(answer)
  {
  }

  /** The denial counter is the number of calls that one of the four checks refused. */
  lemma {:induction false} DenialsAreCounted(cfg: Config, calls: seq<Call>, run: seq<Action>)
    ensures After(cfg, calls, run).gate.denied == Denials(After(cfg, calls, run).pcs)
  {
    if run == [] {
      NoDenials(Start(|calls|).pcs);
    } else {
      var s, a := After(cfg, calls, run[..|run| - 1]), run[|run| - 1];
      DenialsAreCounted(cfg, calls, run[..|run| - 1]);
      if Resumes(calls, s, a) {
        SegmentMoves(cfg, calls, s, a);
        SegmentDenies(cfg, calls, s, a);
        DenialsUpdate(s.pcs, a.who, Apply(cfg, calls, s, a).pcs[a.who]);
      }
    }
  }

  // ------------------------------------------------------------ sessions and actors

  lemma AcceptedLast(ops: seq<S.Op>, x: S.Touch, p: S.SessionPolicy)
    ensures S.Accepted(ops + [S.Touching(x)], p).1 == S.TouchStep(S.Accepted(ops, p).1, x, p).0
  {
    assert (ops + [S.Touching(x)])[..|ops|] == ops;
  }

  lemma SegmentTouches(cfg: Config, calls: seq<Call>, s: System, a: Action)
    requires Resumes(calls, s, a)
    ensures var t, call := Apply(cfg, calls, s, a), calls[a.who];
      if s.pcs[a.who].Arriving? && a.delivered && call.authorization.Actor? then
        && t.touches == s.touches + [S.Touching(TouchOf(call, a.now))]
        && t.gate.sessions == S.TouchStep(s.gate.sessions, TouchOf(call, a.now), cfg.sessions).0
      else t.touches == s.touches && t.gate.sessions == s.gate.sessions
  {
  }

  /** However calls overlap, the stored sessions are those of the authorised calls' touches,
      and no actor has more of them than the limit. */
  lemma {:induction false} SessionsAreTheTouches(cfg: Config, calls: seq<Call>, run: seq<Action>, actor: string)
    ensures var s := After(cfg, calls, run);
      && s.gate.sessions == S.Accepted(s.touches, cfg.sessions).1
      && |S.Of(s.gate.sessions, actor)| <= if cfg.sessions.limit < 0 then 0 else cfg.sessions.limit
  {
    if run != [] {
      var s, a := After(cfg, calls, run[..|run| - 1]), run[|run| - 1];
      SessionsAreTheTouches(cfg, calls, run[..|run| - 1], actor);
      if Resumes(calls, s, a) {
        SegmentTouches(cfg, calls, s, a);
        if calls[a.who].authorization.Actor? {
          AcceptedLast(s.touches, TouchOf(calls[a.who], a.now), cfg.sessions);
        }
      }
    }
    S.SessionsStayFew(After(cfg, calls, run).touches, cfg.sessions, actor);
  }

  /** The actor under whose name a call goes on. */
  ghost predicate NamesActor(call: Call, pc: Pc) {
    pc.Arriving? || call.authorization == Actor(pc.actor)
    || (pc.actor == call.actor && HasAnswer(pc) && pc.answer.Refused?)
  }

  lemma {:induction false} ActorsAreNamed(cfg: Config, calls: seq<Call>, run: seq<Action>, i: nat)
    requires i < |calls|
    ensures NamesActor(calls[i], After(cfg, calls, run).pcs[i])
  {
    if run != [] {
      var s, a := After(cfg, calls, run[..|run| - 1]), run[|run| - 1];
      ActorsAreNamed(cfg, calls, run[..|run| - 1], i);
      if Resumes(calls, s, a) {
        SegmentMoves(cfg, calls, s, a);
        if a.who == i {
          SegmentNames(cfg, calls, s, a);
        }
      }
    }
  }

  lemma SegmentNames(cfg: Config, calls: seq<Call>, s: System, a: Action)
    requires Resumes(calls, s, a) && NamesActor(calls[a.who], s.pcs[a.who])
    ensures NamesActor(calls[a.who], Apply(cfg, calls, s, a).pcs[a.who])
  {
  }

  /** An audit event that says "allow" names the actor whom authorisation resolved. */
  lemma AllowedActorIsAuthorised(cfg: Config, calls: seq<Call>, run: seq<Action>, j: nat) returns (i: nat)
    requires j < |After(cfg, calls, run).gate.audit| && After(cfg, calls, run).gate.audit[j].decision == Allow
    ensures var event := After(cfg, calls, run).gate.audit[j];
      i < |calls| && event.requestId == calls[i].requestId && calls[i].authorization == Actor(event.actor)
  {
    var s := After(cfg, calls, run);
    OneAuditEventPerCall(cfg, calls, run);
    i := s.finished[j];
    ActorsAreNamed(cfg, calls, run, i);
  }
}
