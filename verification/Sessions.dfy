/** The session manager: per actor, the session keys touched recently, with a limit on how
    many a single actor may have. */
module Sessions {
  import opened Collections

  datatype SessionPolicy = SessionPolicy(ttl: int, idle: int, limit: int)

  type Table = map<string, map<string, real>>

  datatype Touch = Touch(actor: string, key: string, at: real)

  function Of(t: Table, actor: string): map<string, real> {
    if actor in t then t[actor] else map[]
  }

  predicate Stale(stored: real, now: real, p: SessionPolicy) {
    now - stored > p.ttl as real || now - stored > p.idle as real
  }

  function Live(sessions: map<string, real>, now: real, p: SessionPolicy): map<string, real> {
    map key | key in sessions && !Stale(sessions[key], now, p) :: sessions[key]
  }

  function Cleaned(t: Table, now: real, p: SessionPolicy): Table {
    map actor | actor in t && Live(t[actor], now, p) != map[] :: Live(t[actor], now, p)
  }

  /** A touch, and whether it is accepted. A refused touch may leave an empty entry. */
  function TouchStep(t: Table, x: Touch, p: SessionPolicy): (Table, bool) {
    var c := Cleaned(t, x.at, p);
    var mine := Of(c, x.actor);
    if x.key !in mine && |mine| >= p.limit then (c[x.actor := mine], false)
    else (c[x.actor := mine[x.key := x.at]], true)
  }

  /** All stored sessions as pairs of actor and key. */
  ghost function Pairs(t: Table): set<(string, string)> {
    set actor, key | actor in t && key in t[actor] :: (actor, key)
  }

  class SessionManager {
    const ttl: int
    const idle: int
    const limit: int
    var sessions: Table

    constructor (sessionTtlMinutes: int, inactivityTimeoutMinutes: int, concurrentSessionsLimit: int)
      ensures sessions == map[]
      ensures Policy() == SessionPolicy(60 * sessionTtlMinutes, 60 * inactivityTimeoutMinutes, concurrentSessionsLimit)
    {
      ttl, idle, limit := sessionTtlMinutes * 60, inactivityTimeoutMinutes * 60, concurrentSessionsLimit;
      sessions := map[];
    }

    ghost function Policy(): SessionPolicy {
      SessionPolicy(ttl, idle, limit)
    }

    method Cleanup(now: real)
      modifies this
      ensures sessions == Cleaned(old(sessions), now, Policy())
    {
      ghost var before := sessions;
      var todo := sessions.Keys;
      while todo != {}
        invariant todo <= before.Keys
        invariant forall a :: a in sessions <==>
          a in before && (a in todo || Live(before[a], now, Policy()) != map[])
        invariant forall a :: a in sessions ==>
          sessions[a] == if a in todo then before[a] else Live(before[a], now, Policy())
        decreases todo
      {
        var actor :| actor in todo;
        var mine := CleanOne(sessions[actor], now);
        todo := todo - {actor};
        if mine == map[] {
          sessions := sessions - {actor};
        } else {
          sessions := sessions[actor := mine];
        }
      }
    }

    /** The inner loop over one actor's sessions. */
    method CleanOne(mine: map<string, real>, now: real) returns (left: map<string, real>)
      ensures left == Live(mine, now, Policy())
    {
      left := mine;
      var todo := mine.Keys;
      while todo != {}
        invariant todo <= mine.Keys
        invariant forall k :: k in left <==> k in mine && (k in todo || !Stale(mine[k], now, Policy()))
        invariant forall k :: k in left ==> left[k] == mine[k]
        decreases todo
      {
        var sid :| sid in todo;
        var started, lastSeen := mine[sid], mine[sid];
        if now - started > ttl as real || now - lastSeen > idle as real {
          left := left - {sid};
        }
        todo := todo - {sid};
      }
    }

    /** `mcpSessionId or requestId` is the key; an absent or empty session id is "". */
    method TouchSession(actor: string, requestId: string, mcpSessionId: string, now: real) returns (accepted: bool)
      modifies this
      ensures (sessions, accepted) ==
        TouchStep(old(sessions), Touch(actor, if mcpSessionId != "" then mcpSessionId else requestId, now), Policy())
    {
      Cleanup(now);
      var key := if mcpSessionId != "" then mcpSessionId else requestId;
      ghost var cleaned := sessions;
      var mine := if actor in sessions then sessions[actor] else map[];
      sessions := sessions[actor := mine];
      if key !in mine && |mine| >= limit {
        return false;
      }
      sessions := sessions[actor := mine[key := now]];
      UpdateTwice(cleaned, actor, mine, mine[key := now]);
      return true;
    }

    method ActiveCountOf(actor: string, now: real) returns (count: nat)
      modifies this
      ensures sessions == Cleaned(old(sessions), now, Policy()) && count == |Of(sessions, actor)|
    {
      Cleanup(now);
      count := if actor in sessions then |sessions[actor]| else 0;
    }

    method ActiveCount(now: real) returns (count: nat)
      modifies this
      ensures sessions == Cleaned(old(sessions), now, Policy()) && count == |Pairs(sessions)|
    {
      Cleanup(now);
      count := CountAll(sessions);
    }
  }

  method CountAll(table: Table) returns (count: nat)
    ensures count == |Pairs(table)|
  {
    count := 0;
    var todo := table.Keys;
    ghost var done: Table := map[];
    while todo != {}
      invariant todo <= table.Keys && done.Keys == table.Keys - todo
      invariant (forall a :: a in done ==> done[a] == table[a]) && count == |Pairs(done)|
      decreases todo
    {
      var actor :| actor in todo;
      count := count + |table[actor]|;
      todo := todo - {actor};
      PairsExtend(done, actor, table[actor]);
      done := done[actor := table[actor]];
    }
    assert done == table;
  }

  lemma PairsExtend(t: Table, actor: string, sessions: map<string, real>)
    requires actor !in t
    ensures |Pairs(t[actor := sessions])| == |Pairs(t)| + |sessions|
  {
    TaggedSize(actor, sessions.Keys);
    var rest, mine, all := Pairs(t), Tagged(actor, sessions.Keys), Pairs(t[actor := sessions]);
    forall a: string, k: string ensures (a, k) in all <==> (a, k) in rest || (a, k) in mine {
    }
    assert all == rest + mine;
    assert rest !! mine;
  }

  ghost function Tagged(actor: string, keys: set<string>): set<(string, string)> {
    set key | key in keys :: (actor, key)
  }

  lemma {:induction false} TaggedSize(actor: string, keys: set<string>)
    ensures |Tagged(actor, keys)| == |keys|
  {
    if keys != {} {
      var k :| k in keys;
      TaggedSize(actor, keys - {k});
      assert Tagged(actor, keys) == Tagged(actor, keys - {k}) + {(actor, k)};
    }
  }

  // ------------------------------------------------------------ history

  datatype Last = Never | At(time: real)

  /** The latest accepted touch of a session. */
  function LastTouch(h: seq<Touch>, actor: string, key: string): Last {
    if h == [] then Never
    else
      var x := h[|h| - 1];
      if x.actor == actor && x.key == key then At(x.at) else LastTouch(h[..|h| - 1], actor, key)
  }

  function Lifetime(p: SessionPolicy): int {
    if p.ttl < p.idle then p.ttl else p.idle
  }

  /** Live by the history alone: touched at most min(ttl, idle) seconds ago. */
  ghost predicate LiveNow(h: seq<Touch>, actor: string, key: string, now: real, p: SessionPolicy) {
    var last := LastTouch(h, actor, key);
    last.At? && now - last.time <= Lifetime(p) as real
  }

  /** What can happen to the session manager. A count purges like a touch does. */
  datatype Op = Touching(touch: Touch) | Counting(at: real)

  function TimeOf(op: Op): real {
    match op case Touching(x) => x.at case Counting(at) => at
  }

  function Remember(h: seq<Touch>, x: Touch, accepted: bool): seq<Touch> {
    if accepted then h + [x] else h
  }

  /** The accepted touches of a run, and the table it leaves. */
  function Accepted(ops: seq<Op>, p: SessionPolicy): (seq<Touch>, Table) {
    if ops == [] then ([], map[])
    else
      var (h, t) := Accepted(ops[..|ops| - 1], p);
      match ops[|ops| - 1]
      case Touching(x) => var (u, ok) := TouchStep(t, x, p); (Remember(h, x, ok), u)
      case Counting(at) => (h, Cleaned(t, at, p))
  }

  ghost predicate InOrder(ops: seq<Op>) {
    forall i, j :: 0 <= i < j < |ops| ==> TimeOf(ops[i]) <= TimeOf(ops[j])
  }

  function ClockAfter(ops: seq<Op>, start: real): real {
    if ops == [] then start else TimeOf(ops[|ops| - 1])
  }

  lemma InOrderFront(ops: seq<Op>)
    requires InOrder(ops) && ops != []
    ensures InOrder(ops[..|ops| - 1])
    ensures var last := TimeOf(ops[|ops| - 1]); ClockAfter(ops[..|ops| - 1], last) <= last
  {
  }

  /** The table stores exactly the live sessions, each with its latest touch. */
  ghost predicate Agrees(t: Table, h: seq<Touch>, now: real, p: SessionPolicy) {
    forall a: string, k: string :: AgreesOn(t, h, now, p, a, k)
  }

  ghost predicate AgreesOn(t: Table, h: seq<Touch>, now: real, p: SessionPolicy, a: string, k: string) {
    && (k in Of(t, a) <==> LiveNow(h, a, k, now, p))
    && (k in Of(t, a) ==> At(Of(t, a)[k]) == LastTouch(h, a, k))
  }

  /** The table knows every live session, and of what it stores the latest touch. */
  ghost predicate Knows(t: Table, h: seq<Touch>, now: real, p: SessionPolicy) {
    forall a: string, k: string :: KnowsOf(t, h, now, p, a, k)
  }

  ghost predicate KnowsOf(t: Table, h: seq<Touch>, now: real, p: SessionPolicy, a: string, k: string) {
    && (k in Of(t, a) ==> At(Of(t, a)[k]) == LastTouch(h, a, k))
    && (LiveNow(h, a, k, now, p) ==> k in Of(t, a))
  }

  /** Cleaning at a later time leaves exactly the live sessions: purging never forgets a live
      session and never keeps a dead one. */
  lemma CleanedAgrees(t: Table, h: seq<Touch>, clock: real, now: real, p: SessionPolicy)
    requires Knows(t, h, clock, p) && clock <= now
    ensures Agrees(Cleaned(t, now, p), h, now, p)
  {
    forall a: string, k: string ensures AgreesOn(Cleaned(t, now, p), h, now, p, a, k) {
      CleanedOf(t, now, p, a);
      assert KnowsOf(t, h, clock, p, a, k);
    }
  }

  lemma CleanedOf(t: Table, now: real, p: SessionPolicy, a: string)
    ensures Of(Cleaned(t, now, p), a) == Live(Of(t, a), now, p)
  {
  }

  lemma LastTouchAppend(h: seq<Touch>, x: Touch, a: string, k: string)
    ensures LastTouch(h + [x], a, k) == if x.actor == a && x.key == k then At(x.at) else LastTouch(h, a, k)
  {
    assert (h + [x])[..|h|] == h;
  }

  /** What a touch does to one actor. */
  lemma TouchEffect(t: Table, x: Touch, p: SessionPolicy, a: string)
    ensures var (u, accepted) := TouchStep(t, x, p); var mine := Live(Of(t, a), x.at, p);
      && Of(u, a) == (if accepted && a == x.actor then mine[x.key := x.at] else mine)
      && (a == x.actor ==> (accepted <==> x.key in mine || |mine| < p.limit))
  {
    CleanedOf(t, x.at, p, a);
  }

  lemma TouchKnows(t: Table, h: seq<Touch>, x: Touch, p: SessionPolicy)
    requires Agrees(Cleaned(t, x.at, p), h, x.at, p)
    ensures var (u, accepted) := TouchStep(t, x, p); var g := Remember(h, x, accepted);
      Knows(u, g, x.at, p) && (Lifetime(p) >= 0 ==> Agrees(u, g, x.at, p))
  {
    var (u, accepted) := TouchStep(t, x, p);
    var g := Remember(h, x, accepted);
    forall a: string, k: string
      ensures KnowsOf(u, g, x.at, p, a, k) && (Lifetime(p) >= 0 ==> AgreesOn(u, g, x.at, p, a, k))
    {
      LastTouchAppend(h, x, a, k);
      TouchEffect(t, x, p, a);
      CleanedOf(t, x.at, p, a);
      assert AgreesOn(Cleaned(t, x.at, p), h, x.at, p, a, k);
    }
  }

  lemma {:induction false} RunKnows(ops: seq<Op>, p: SessionPolicy, start: real)
    requires InOrder(ops)
    ensures var (h, t) := Accepted(ops, p);
      Knows(t, h, ClockAfter(ops, start), p) && (Lifetime(p) >= 0 ==> Agrees(t, h, ClockAfter(ops, start), p))
  {
    if ops != [] {
      var front, op := ops[..|ops| - 1], ops[|ops| - 1];
      InOrderFront(ops);
      RunKnows(front, p, TimeOf(op));
      var (h, t) := Accepted(front, p);
      CleanedAgrees(t, h, ClockAfter(front, TimeOf(op)), TimeOf(op), p);
      if op.Touching? {
        TouchKnows(t, h, op.touch, p);
      } else {
        AgreesKnows(Cleaned(t, op.at, p), h, op.at, p);
      }
    }
  }

  lemma AgreesKnows(t: Table, h: seq<Touch>, now: real, p: SessionPolicy)
    requires Agrees(t, h, now, p)
    ensures Knows(t, h, now, p)
  {
    forall a: string, k: string ensures KnowsOf(t, h, now, p, a, k) {
      assert AgreesOn(t, h, now, p, a, k);
    }
  }

  /** With no room for a session nothing is ever accepted or stored. */
  lemma {:induction false} NoRoom(ops: seq<Op>, p: SessionPolicy, a: string)
    requires p.limit <= 0
    ensures Accepted(ops, p).0 == [] && Of(Accepted(ops, p).1, a) == map[]
  {
    if ops != [] {
      var front, op := ops[..|ops| - 1], ops[|ops| - 1];
      NoRoom(front, p, a);
      if op.Touching? {
        NoRoom(front, p, op.touch.actor);
        TouchEffect(Accepted(front, p).1, op.touch, p, a);
        TouchEffect(Accepted(front, p).1, op.touch, p, op.touch.actor);
      } else {
        CleanedOf(Accepted(front, p).1, op.at, p, a);
      }
    }
  }

  ghost predicate AlwaysAgrees(p: SessionPolicy) {
    forall ops: seq<Op> :: InOrder(ops) ==> RunAgreesAtEnd(ops, p)
  }

  ghost predicate RunAgreesAtEnd(ops: seq<Op>, p: SessionPolicy) {
    Agrees(Accepted(ops, p).1, Accepted(ops, p).0, ClockAfter(ops, 0.0), p)
  }

  /** After every run the stored sessions are exactly those touched at most min(ttl, idle)
      seconds ago, if and only if that lifetime is not negative or no session fits. */
  lemma SessionsRefineHistory(p: SessionPolicy)
    ensures AlwaysAgrees(p) <==> Lifetime(p) >= 0 || p.limit <= 0
  {
    if Lifetime(p) >= 0 {
      forall ops: seq<Op> | InOrder(ops) ensures RunAgreesAtEnd(ops, p) {
        RunKnows(ops, p, 0.0);
      }
    } else if p.limit <= 0 {
      forall ops: seq<Op> | InOrder(ops) ensures RunAgreesAtEnd(ops, p) {
        forall a: string, k: string
          ensures AgreesOn(Accepted(ops, p).1, Accepted(ops, p).0, ClockAfter(ops, 0.0), p, a, k)
        {
          NoRoom(ops, p, a);
        }
      }
    } else {
      NegativeLifetimeStores(p);
    }
  }

  lemma FirstTouch(x: Touch, p: SessionPolicy)
    ensures Accepted([Touching(x)], p) == (Remember([], x, p.limit > 0), TouchStep(map[], x, p).0)
    ensures p.limit > 0 ==> Of(Accepted([Touching(x)], p).1, x.actor) == map[x.key := x.at]
  {
    assert [Touching(x)][..0] == [];
    TouchEffect(map[], x, p, x.actor);
  }

  lemma NegativeLifetimeStores(p: SessionPolicy)
    requires Lifetime(p) < 0 < p.limit
    ensures !AlwaysAgrees(p)
  {
    var x := Touch("a", "k", 0.0);
    FirstTouch(x, p);
    LastTouchAppend([], x, "a", "k");
    assert [] + [x] == [x];
    assert !AgreesOn(Accepted([Touching(x)], p).1, [x], 0.0, p, "a", "k");
    assert InOrder([Touching(x)]) && !RunAgreesAtEnd([Touching(x)], p);
  }

  /** The keys of an actor that are live by the history. */
  ghost function LiveKeys(h: seq<Touch>, a: string, now: real, p: SessionPolicy): set<string> {
    set x | x in h && x.actor == a && LiveNow(h, a, x.key, now, p) :: x.key
  }

  ghost function LiveSessions(h: seq<Touch>, now: real, p: SessionPolicy): set<(string, string)> {
    set x | x in h && LiveNow(h, x.actor, x.key, now, p) :: (x.actor, x.key)
  }

  lemma {:induction false} LastTouchIsInHistory(h: seq<Touch>, a: string, k: string)
    requires LastTouch(h, a, k).At?
    ensures Touch(a, k, LastTouch(h, a, k).time) in h
  {
    var x := h[|h| - 1];
    assert h == h[..|h| - 1] + [x];
    if !(x.actor == a && x.key == k) {
      LastTouchIsInHistory(h[..|h| - 1], a, k);
    }
  }

  lemma LiveKeysAre(t: Table, h: seq<Touch>, now: real, p: SessionPolicy, a: string)
    requires Agrees(t, h, now, p)
    ensures Of(t, a).Keys == LiveKeys(h, a, now, p)
  {
    forall k: string ensures k in Of(t, a) <==> k in LiveKeys(h, a, now, p) {
      assert AgreesOn(t, h, now, p, a, k);
      if LiveNow(h, a, k, now, p) {
        LastTouchIsInHistory(h, a, k);
      }
    }
  }

  lemma LiveSessionsAre(t: Table, h: seq<Touch>, now: real, p: SessionPolicy)
    requires Agrees(t, h, now, p)
    ensures Pairs(t) == LiveSessions(h, now, p)
  {
    forall a: string, k: string ensures (a, k) in Pairs(t) <==> (a, k) in LiveSessions(h, now, p) {
      assert AgreesOn(t, h, now, p, a, k);
      if LiveNow(h, a, k, now, p) {
        LastTouchIsInHistory(h, a, k);
      }
    }
  }

  /** A count at the end of any run is the number of sessions that are live by the history,
      of one actor and of all. */
  lemma CountsAreLive(ops: seq<Op>, p: SessionPolicy, a: string, now: real)
    requires InOrder(ops) && ClockAfter(ops, now) <= now
    ensures var (h, t) := Accepted(ops, p); var counted := Cleaned(t, now, p);
      |Of(counted, a)| == |LiveKeys(h, a, now, p)| && |Pairs(counted)| == |LiveSessions(h, now, p)|
  {
    RunKnows(ops, p, now);
    var (h, t) := Accepted(ops, p);
    var counted := Cleaned(t, now, p);
    CleanedAgrees(t, h, ClockAfter(ops, now), now, p);
    LiveKeysAre(counted, h, now, p, a);
    LiveSessionsAre(counted, h, now, p);
    assert |Of(counted, a)| == |Of(counted, a).Keys|;
  }

  /** A touch is refused exactly when its key is not live and its actor already has
      `limit` live keys. */
  lemma RefusedIffNoRoom(ops: seq<Op>, x: Touch, p: SessionPolicy)
    requires InOrder(ops) && ClockAfter(ops, x.at) <= x.at
    ensures var (h, t) := Accepted(ops, p);
      TouchStep(t, x, p).1 <==> LiveNow(h, x.actor, x.key, x.at, p) || |LiveKeys(h, x.actor, x.at, p)| < p.limit
  {
    RunKnows(ops, p, x.at);
    var (h, t) := Accepted(ops, p);
    var cleaned := Cleaned(t, x.at, p);
    CleanedAgrees(t, h, ClockAfter(ops, x.at), x.at, p);
    TouchEffect(t, x, p, x.actor);
    CleanedOf(t, x.at, p, x.actor);
    LiveKeysAre(cleaned, h, x.at, p, x.actor);
    assert AgreesOn(cleaned, h, x.at, p, x.actor, x.key);
    assert |Of(cleaned, x.actor)| == |Of(cleaned, x.actor).Keys|;
  }

  /** Whatever the clock does, no actor has more sessions than the limit. */
  lemma {:induction false} SessionsStayFew(ops: seq<Op>, p: SessionPolicy, a: string)
    ensures |Of(Accepted(ops, p).1, a)| <= if p.limit < 0 then 0 else p.limit
  {
    if ops != [] {
      var front, op := ops[..|ops| - 1], ops[|ops| - 1];
      SessionsStayFew(front, p, a);
      var t := Accepted(front, p).1;
      LiveShrinks(Of(t, a), TimeOf(op), p);
      CleanedOf(t, TimeOf(op), p, a);
      if op.Touching? {
        TouchEffect(t, op.touch, p, a);
        OneKeyMore(Live(Of(t, a), TimeOf(op), p), op.touch.key, op.touch.at);
      }
    }
  }

  lemma OneKeyMore(mine: map<string, real>, key: string, at: real)
    ensures |mine[key := at]| == if key in mine then |mine| else |mine| + 1
  {
    assert mine[key := at].Keys == mine.Keys + {key};
    assert |mine[key := at]| == |mine[key := at].Keys| && |mine| == |mine.Keys|;
  }

  // ------------------------------------------------------------ the age of a session

  /** When a session started: at the touch that found no live session under its key. */
  ghost function Started(h: seq<Touch>, a: string, k: string, p: SessionPolicy): real {
    if h == [] then 0.0
    else
      var front, x := h[..|h| - 1], h[|h| - 1];
      if x.actor == a && x.key == k && !LiveNow(front, a, k, x.at, p) then x.at else Started(front, a, k, p)
  }

  lemma StartedAppend(h: seq<Touch>, x: Touch, a: string, k: string, p: SessionPolicy)
    ensures Started(h + [x], a, k, p) ==
      if x.actor == a && x.key == k && !LiveNow(h, a, k, x.at, p) then x.at else Started(h, a, k, p)
  {
    assert (h + [x])[..|h|] == h;
  }

  /** An operation at `now` that finds the session finds it no older than the ttl. */
  ghost predicate YoungIfKept(ops: seq<Op>, a: string, k: string, now: real, p: SessionPolicy) {
    var (h, t) := Accepted(ops, p);
    k in Of(Cleaned(t, now, p), a) ==> now - Started(h, a, k, p) <= p.ttl as real
  }

  ghost predicate TtlBoundsAge(p: SessionPolicy) {
    forall ops: seq<Op>, a: string, k: string, now: real ::
      InOrder(ops) && ClockAfter(ops, now) <= now ==> YoungIfKept(ops, a, k, now, p)
  }

  /** No accepted touch is later than the run's clock; and with a lifetime of zero a session
      that is found live again started at that very time. */
  lemma {:induction false} StartsAndTouches(ops: seq<Op>, p: SessionPolicy, a: string, k: string, start: real)
    requires InOrder(ops)
    ensures var h := Accepted(ops, p).0; var last := LastTouch(h, a, k);
      last.At? ==> last.time <= ClockAfter(ops, start) && (Lifetime(p) == 0 ==> Started(h, a, k, p) == last.time)
  {
    if ops != [] {
      var front, op := ops[..|ops| - 1], ops[|ops| - 1];
      InOrderFront(ops);
      StartsAndTouches(front, p, a, k, TimeOf(op));
      if op.Touching? {
        LastTouchAppend(Accepted(front, p).0, op.touch, a, k);
        StartedAppend(Accepted(front, p).0, op.touch, a, k, p);
      }
    }
  }

  /** The time to live bounds the age of sessions if and only if no session survives any
      time at all: there is only one stored time, so every touch renews both limits. */
  lemma TtlBoundsAgeIff(p: SessionPolicy)
    ensures TtlBoundsAge(p) <==> Lifetime(p) <= 0 || p.limit <= 0
  {
    if Lifetime(p) <= 0 || p.limit <= 0 {
      forall ops: seq<Op>, a: string, k: string, now: real | InOrder(ops) && ClockAfter(ops, now) <= now
        ensures YoungIfKept(ops, a, k, now, p)
      {
        KeptIsYoung(ops, a, k, now, p);
      }
    } else {
      BeatsOutliveTtl(p);
    }
  }

  lemma KeptIsYoung(ops: seq<Op>, a: string, k: string, now: real, p: SessionPolicy)
    requires (Lifetime(p) <= 0 || p.limit <= 0) && InOrder(ops) && ClockAfter(ops, now) <= now
    ensures YoungIfKept(ops, a, k, now, p)
  {
    RunKnows(ops, p, now);
    var (h, t) := Accepted(ops, p);
    CleanedAgrees(t, h, ClockAfter(ops, now), now, p);
    assert AgreesOn(Cleaned(t, now, p), h, now, p, a, k);
    if p.limit <= 0 {
      NoRoom(ops, p, a);
    } else {
      StartsAndTouches(ops, p, a, k, now);
    }
  }

  /** The run leaves the session stored with the given latest touch, started at time 0. */
  ghost predicate KeptSinceZero(ops: seq<Op>, p: SessionPolicy, at: real) {
    var (h, t) := Accepted(ops, p);
    && "k" in Of(t, "a") && Of(t, "a")["k"] == at
    && LastTouch(h, "a", "k") == At(at) && Started(h, "a", "k", p) == 0.0
  }

  lemma KeptFromFirst(p: SessionPolicy)
    requires p.limit > 0
    ensures KeptSinceZero([Touching(Touch("a", "k", 0.0))], p, 0.0)
  {
    var x := Touch("a", "k", 0.0);
    FirstTouch(x, p);
    LastTouchAppend([], x, "a", "k");
    StartedAppend([], x, "a", "k", p);
    assert [] + [x] == [x];
  }

  lemma KeptByTouch(ops: seq<Op>, p: SessionPolicy, before: real, at: real)
    requires KeptSinceZero(ops, p, before) && at - before <= Lifetime(p) as real
    ensures KeptSinceZero(ops + [Touching(Touch("a", "k", at))], p, at)
  {
    var x := Touch("a", "k", at);
    var (h, t) := Accepted(ops, p);
    assert (ops + [Touching(x)])[..|ops|] == ops;
    TouchEffect(t, x, p, "a");
    LastTouchAppend(h, x, "a", "k");
    StartedAppend(h, x, "a", "k", p);
  }

  lemma InOrderAppend(ops: seq<Op>, op: Op)
    requires InOrder(ops) && ClockAfter(ops, TimeOf(op)) <= TimeOf(op)
    ensures InOrder(ops + [op]) && ClockAfter(ops + [op], 0.0) == TimeOf(op)
  {
  }

  /** A client that touches its session at the last moment, n times over. */
  lemma {:induction false} Beats(n: nat, p: SessionPolicy) returns (ops: seq<Op>, at: real)
    requires Lifetime(p) > 0 && p.limit > 0
    ensures KeptSinceZero(ops, p, at) && at >= n as real
    ensures ops != [] && InOrder(ops) && ClockAfter(ops, 0.0) == at
  {
    if n == 0 {
      KeptFromFirst(p);
      ops, at := [Touching(Touch("a", "k", 0.0))], 0.0;
    } else {
      var before, last := Beats(n - 1, p);
      at := last + Lifetime(p) as real;
      KeptByTouch(before, p, last, at);
      InOrderAppend(before, Touching(Touch("a", "k", at)));
      ops := before + [Touching(Touch("a", "k", at))];
    }
  }

  lemma KeptTooLong(ops: seq<Op>, p: SessionPolicy, at: real)
    requires KeptSinceZero(ops, p, at) && Lifetime(p) >= 0 && at > p.ttl as real
    ensures !YoungIfKept(ops, "a", "k", at, p)
  {
    CleanedOf(Accepted(ops, p).1, at, p, "a");
  }

  lemma BeatsOutliveTtl(p: SessionPolicy)
    requires Lifetime(p) > 0 && p.limit > 0
    ensures !TtlBoundsAge(p)
  {
    var ops, at := Beats(p.ttl + 1, p);
    KeptTooLong(ops, p, at);
  }

  /** With one minute for both limits, touches every 50 seconds keep a session for 100. */
  lemma TouchedSessionOutlivesTtl()
    ensures var ops := [Touching(Touch("a", "k", 0.0))] + [Touching(Touch("a", "k", 50.0))]
        + [Touching(Touch("a", "k", 100.0))];
      InOrder(ops) && !YoungIfKept(ops, "a", "k", 100.0, SessionPolicy(60, 60, 1))
  {
    var p := SessionPolicy(60, 60, 1);
    var one := [Touching(Touch("a", "k", 0.0))];
    var two := one + [Touching(Touch("a", "k", 50.0))];
    KeptFromFirst(p);
    KeptByTouch(one, p, 0.0, 50.0);
    InOrderAppend(one, Touching(Touch("a", "k", 50.0)));
    KeptByTouch(two, p, 50.0, 100.0);
    InOrderAppend(two, Touching(Touch("a", "k", 100.0)));
    KeptTooLong(two + [Touching(Touch("a", "k", 100.0))], p, 100.0);
  }

  lemma LiveShrinks(m: map<string, real>, now: real, p: SessionPolicy)
    ensures |Live(m, now, p)| <= |m|
  {
    var l := Live(m, now, p);
    SubsetSize(l.Keys, m.Keys);
    assert |l| == |l.Keys| && |m| == |m.Keys|;
  }

  function Sum(t: Table, actors: seq<string>): nat {
    if actors == [] then 0 else Sum(t, actors[..|actors| - 1]) + |Of(t, actors[|actors| - 1])|
  }

  /** The total count is the sum of the actors' counts. */
  lemma {:induction false} TotalIsSum(t: Table, actors: seq<string>)
    requires NoDup(actors)
    requires forall a :: a in t <==> a in actors
    ensures |Pairs(t)| == Sum(t, actors)
  {
    if actors == [] {
      assert Pairs(t) == {};
    } else {
      var front, last := actors[..|actors| - 1], actors[|actors| - 1];
      assert actors == front + [last];
      assert last in t && last !in front;
      PairsRemove(t, last);
      TotalIsSum(t - {last}, front);
      SumWithout(t, last, front);
    }
  }

  lemma PairsRemove(t: Table, actor: string)
    requires actor in t
    ensures |Pairs(t)| == |Pairs(t - {actor})| + |Of(t, actor)|
  {
    var rest := t - {actor};
    PairsExtend(rest, actor, t[actor]);
    assert rest[actor := t[actor]] == t;
  }

  lemma {:induction false} SumWithout(t: Table, actor: string, actors: seq<string>)
    requires actor !in actors
    ensures Sum(t - {actor}, actors) == Sum(t, actors)
  {
    if actors != [] {
      assert actors[|actors| - 1] in actors;
      SumWithout(t, actor, actors[..|actors| - 1]);
    }
  }
}
