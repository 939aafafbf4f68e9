/** The request gate of the read tools: authorisation, session, rate and write checks in
    front of the connection manager, with one audit event per call. */
module Gate {
  import opened Text
  import P = Pool
  import C = ConnectionManagers
  import S = Sessions
  import H = RateHistory
  import L = LocalLimiter

  datatype Authorization = Actor(name: string) | AuthFailed

  /** One call, together with what its environment answers: the authorisation, the write
      guard's verdict on the SQL text, and the database server for up to two attempts. */
  datatype Call = Call(requestId: string, actor: string, authorization: Authorization, mcpSessionId: string,
                       writeAllowed: bool, databaseName: string, first: C.Attempt, second: C.Attempt)

  /** Why a call raises; NotDelivered is an error in sending a progress message. */
  datatype Refusal = NotAuthorized | SessionLimit | RateLimit | WriteBlocked | BadDatabase | ReadError | NotDelivered

  datatype Answer = Rows(count: nat) | Refused(why: Refusal)

  datatype Decision = Allow | Deny(why: Refusal)

  datatype AuditEvent = AuditEvent(requestId: string, actor: string, decision: Decision, rows: nat)

  datatype Config = Config(sessions: S.SessionPolicy, rates: H.Policy, poolMax: int, poolEnabled: bool)

  /** `executions` records, for every run of the database operation, on whose behalf it ran
      and when the limiter admitted the call that ran it. */
  datatype State = State(sessions: S.Table, buckets: L.Buckets, pool: P.Pool, nextId: P.Conn, denied: nat,
                         audit: seq<AuditEvent>, executions: seq<H.Request>)

  function Init(): State {
    State(map[], L.Buckets(map[], []), P.Pool([], [], 0, 0, 0), 0, 0, [], [])
  }

  function Key(call: Call): string {
    if call.mcpSessionId != "" then call.mcpSessionId else call.requestId
  }

  predicate DatabaseOk(name: string) {
    !Blank(name) && forall i :: 0 <= i < |name| ==>
      name[i] != ';' && !(name[i] == '-' && i + 1 < |name| && name[i + 1] == '-')
  }

  function Copies(r: H.Request, n: nat): seq<H.Request> {
    seq(n, _ => r)
  }

  function Touched(s: State, actor: string, call: Call, now: real, cfg: Config): (State, bool) {
    var (sessions, accepted) := S.TouchStep(s.sessions, S.Touch(actor, Key(call), now), cfg.sessions);
    (s.(sessions := sessions), accepted)
  }

  function Rated(s: State, actor: string, now: real, cfg: Config): (State, H.Verdict) {
    var (buckets, verdict) := L.AllowStep(s.buckets, H.Request(actor, now), cfg.rates);
    (s.(buckets := buckets), verdict)
  }

  /** The check of the database name, and the read, for a call admitted at the given time. */
  function Fetched(s: State, actor: string, at: real, call: Call, cfg: Config): (State, Answer) {
    if call.databaseName != "" && !DatabaseOk(call.databaseName) then (s, Refused(BadDatabase))
    else
      var pooled := cfg.poolEnabled && call.databaseName == "";
      var r := C.Read(s.pool, s.nextId, pooled, call.first, call.second, cfg.poolMax);
      (s.(pool := r.pool, nextId := r.nextId, executions := s.executions + Copies(H.Request(actor, at), |r.executed|)),
       if r.outcome.Rows? then Rows(r.outcome.count) else Refused(ReadError))
  }

  /** The checks and the read, without the bookkeeping. */
  function Attempted(s: State, call: Call, now: real, cfg: Config): (State, Answer) {
    if call.authorization.AuthFailed? then (s, Refused(NotAuthorized))
    else
      var actor := call.authorization.name;
      var (s1, accepted) := Touched(s, actor, call, now, cfg);
      if !accepted then (s1, Refused(SessionLimit))
      else
        var (s2, verdict) := Rated(s1, actor, now, cfg);
        if !verdict.Admitted? then (s2, Refused(RateLimit))
        else if !call.writeAllowed then (s2, Refused(WriteBlocked))
        else Fetched(s2, actor, now, call, cfg)
  }

  /** A permission error is counted as a denied request. */
  predicate IsPermissionError(a: Answer) {
    a.Refused? && (a.why.NotAuthorized? || a.why.SessionLimit? || a.why.RateLimit? || a.why.WriteBlocked?)
  }

  function Counted(s: State, a: Answer): State {
    s.(denied := s.denied + if IsPermissionError(a) then 1 else 0)
  }

  function Audited(s: State, call: Call, actor: string, a: Answer, rows: nat): State {
    s.(audit := s.audit + [AuditEvent(call.requestId, actor, if a.Rows? then Allow else Deny(a.why), rows)])
  }

  /** The actor that the audit event names: the caller's until authorisation resolves it. */
  function ActorOf(call: Call): string {
    if call.authorization.Actor? then call.authorization.name else call.actor
  }

  function RowCount(a: Answer): nat {
    if a.Rows? then a.count else 0
  }

  /** A whole call that nothing interrupts, every message delivered. */
  function Step(s: State, call: Call, now: real, cfg: Config): (State, Answer) {
    var (t, a) := Attempted(s, call, now, cfg);
    (Audited(Counted(t, a), call, ActorOf(call), a, RowCount(a)), a)
  }

  lemma StepIs(s: State, call: Call, now: real, cfg: Config, checked: State, answer: Answer)
    requires (checked, answer) == Attempted(s, call, now, cfg)
    ensures Step(s, call, now, cfg)
         == (Audited(Counted(checked, answer), call, ActorOf(call), answer, RowCount(answer)), answer)
  {
  }

  class ReadGate {
    const sessionManager: S.SessionManager
    const rateLimiter: L.SlidingWindowRateLimiter
    const connectionManager: C.ConnectionManager
    var deniedRequests: nat
    var audit: seq<AuditEvent>
    ghost var executions: seq<H.Request>

    constructor (sessions: S.SessionManager, limiter: L.SlidingWindowRateLimiter, manager: C.ConnectionManager)
      requires manager.Valid()
      ensures sessionManager == sessions && rateLimiter == limiter && connectionManager == manager
      ensures Valid() && deniedRequests == 0 && audit == [] && executions == []
    {
      sessionManager, rateLimiter, connectionManager := sessions, limiter, manager;
      deniedRequests, audit, executions := 0, [], [];
    }

    ghost predicate Valid()
      reads connectionManager
    {
      connectionManager.Valid()
    }

    ghost function Configuration(): Config {
      Config(sessionManager.Policy(), rateLimiter.Limits(), connectionManager.poolMax, connectionManager.poolEnabled)
    }

    ghost function Current(): State
      reads this, sessionManager, rateLimiter, connectionManager
    {
      State(sessionManager.sessions, rateLimiter.State(), connectionManager.State(), connectionManager.nextId,
            deniedRequests, audit, executions)
    }

    method Checked(call: Call, now: real) returns (answer: Answer, actor: string)
      requires Valid()
      modifies this`executions, sessionManager, rateLimiter, connectionManager
      ensures Valid()
      ensures (Current(), answer) == Attempted(old(Current()), call, now, Configuration())
      ensures actor == ActorOf(call)
    {
      actor := call.actor;
      if call.authorization.AuthFailed? {
        return Refused(NotAuthorized), actor;
      }
      actor := call.authorization.name;
      var accepted := sessionManager.TouchSession(actor, call.requestId, call.mcpSessionId, now);
      if !accepted {
        return Refused(SessionLimit), actor;
      }
      var verdict := rateLimiter.Allow(actor, now);
      if !verdict.Admitted? {
        return Refused(RateLimit), actor;
      }
      if !call.writeAllowed {
        return Refused(WriteBlocked), actor;
      }
      if call.databaseName != "" && !DatabaseOk(call.databaseName) {
        return Refused(BadDatabase), actor;
      }
      var executed, outcome := connectionManager.RunReadOperation(call.databaseName != "", [call.first, call.second]);
      executions := executions + Copies(H.Request(actor, now), |executed|);
      answer := if outcome.Rows? then Rows(outcome.count) else Refused(ReadError);
    }

    method RunReadTool(call: Call, now: real) returns (answer: Answer)
      requires Valid()
      modifies this, sessionManager, rateLimiter, connectionManager
      ensures Valid()
      ensures (Current(), answer) == Step(old(Current()), call, now, Configuration())
    {
      var decision, rows := Allow, 0;
      var actor;
      answer, actor := Checked(call, now);
      ghost var checked := Current();
      StepIs(old(Current()), call, now, Configuration(), checked, answer);
      match answer {
        case Rows(count) =>
          rows := count;
        case Refused(why) =>
          decision := Deny(why);
          if IsPermissionError(answer) {
            deniedRequests := deniedRequests + 1;
          }
      }
      audit := audit + [AuditEvent(call.requestId, actor, decision, rows)];
      assert Current() == Audited(Counted(checked, answer), call, actor, answer, RowCount(answer));
    }
  }

  // ------------------------------------------------------------ one call

  /** All four checks pass, and the database name is well formed. */
  ghost predicate Passes(s: State, call: Call, now: real, cfg: Config) {
    && call.authorization.Actor?
    && S.TouchStep(s.sessions, S.Touch(call.authorization.name, Key(call), now), cfg.sessions).1
    && L.AllowStep(s.buckets, H.Request(call.authorization.name, now), cfg.rates).1.Admitted?
    && call.writeAllowed
    && (call.databaseName == "" || DatabaseOk(call.databaseName))
  }

  /** The operation ran at most twice for the caller, and at least once if rows came back. */
  ghost predicate ExecutedFor(s: State, t: State, r: H.Request, answer: Answer) {
    exists n: nat :: n <= 2 && (answer.Rows? ==> n >= 1) && t.executions == s.executions + Copies(r, n)
  }

  ghost predicate PoolSound(s: State) {
    s.pool.Valid() && C.IdsBelow(s.pool, s.nextId)
  }

  /** Nothing is in use, the pool is within its cap, and every connection ever created is
      idle or was discarded. */
  ghost predicate PoolRests(s: State, cfg: Config) {
    && PoolSound(s) && s.pool.inUse == [] && |s.pool.available| <= P.Cap(cfg.poolMax)
    && s.pool.created == |s.pool.available| + s.pool.discarded
  }

  /** A read runs the operation at most twice, on behalf of its actor and its admission, and
      touches nothing but the pool; only a well-formed database name gets that far. */
  lemma FetchedEffect(s: State, actor: string, at: real, call: Call, cfg: Config)
    ensures var (t, answer) := Fetched(s, actor, at, call, cfg);
      && ExecutedFor(s, t, H.Request(actor, at), answer)
      && t.sessions == s.sessions && t.buckets == s.buckets && t.denied == s.denied && t.audit == s.audit
      && (call.databaseName != "" && !DatabaseOk(call.databaseName) ==> t == s && answer == Refused(BadDatabase))
  {
    var pooled := cfg.poolEnabled && call.databaseName == "";
    var r := H.Request(actor, at);
    C.ExecutedAtMostTwice(s.pool, s.nextId, pooled, call.first, call.second, cfg.poolMax);
    assert s.executions + Copies(r, 0) == s.executions;
    var n := |C.Read(s.pool, s.nextId, pooled, call.first, call.second, cfg.poolMax).executed|;
    var t := Fetched(s, actor, at, call, cfg).0;
    assert t == s || t.executions == s.executions + Copies(r, n);
  }

  /** Whoever else uses the pool, a read leaves the connections in use as they were; and a
      pool at rest stays so. */
  lemma FetchedPool(s: State, actor: string, at: real, call: Call, cfg: Config)
    requires PoolSound(s)
    ensures var t := Fetched(s, actor, at, call, cfg).0;
      PoolSound(t) && t.pool.inUse == s.pool.inUse && (PoolRests(s, cfg) ==> PoolRests(t, cfg))
  {
    var pooled := cfg.poolEnabled && call.databaseName == "";
    C.ReadEffect(s.pool, s.nextId, pooled, call.first, call.second, cfg.poolMax);
  }

  /** Only a call that passes every check reaches the pool. Such a call runs the operation
      at most twice, on behalf of its own actor, and leaves the connections in use, whoever
      uses them, as they were; it answers with rows only after running the operation. */
  lemma OnlyCheckedCallsReachThePool(s: State, call: Call, now: real, cfg: Config)
    requires PoolSound(s)
    ensures var (t, answer) := Step(s, call, now, cfg);
      && PoolSound(t) && t.pool.inUse == s.pool.inUse && (PoolRests(s, cfg) ==> PoolRests(t, cfg))
      && (!Passes(s, call, now, cfg) ==>
            t.pool == s.pool && t.nextId == s.nextId && t.executions == s.executions && answer.Refused?)
      && (Passes(s, call, now, cfg) ==> ExecutedFor(s, t, H.Request(call.authorization.name, now), answer))
      && (IsPermissionError(answer) ==> !Passes(s, call, now, cfg))
  {
    if call.authorization.Actor? {
      var actor := call.authorization.name;
      var s1 := Touched(s, actor, call, now, cfg).0;
      var s2 := Rated(s1, actor, now, cfg).0;
      FetchedEffect(s2, actor, now, call, cfg);
      FetchedPool(s2, actor, now, call, cfg);
    }
  }
}
