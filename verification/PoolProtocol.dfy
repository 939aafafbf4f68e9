/** The pool under concurrency. Every `with self._pool_condition` block is one atomic
    step, and so is every effect the code performs between two such blocks: the
    usability probe, the physical connect, the user's work and closing. */
module PoolProtocol {
  import opened Collections
  import opened Pool

  /** Where a caller stands in acquire, use and release. */
  datatype Pc =
    | Idle
    | Wanting                            // before the first lock block of the acquire loop
    | Parked                             // in Condition.wait, not notified
    | Probing(conn: Conn)                // popped a connection, probing it unlocked
    | Discarding(conn: Conn)             // probe failed, about to remove it
    | Connecting                         // decided to create, connecting unlocked
    | Registering(conn: Conn)            // connected, about to list the new connection
    | Holding(conn: Conn)                // inside the caller's `with connect(...)` body
    | Checking(conn: Conn)               // body finished, probing before the release block
    | Returning(conn: Conn, keep: bool)  // about to run the release block
    | Closing(conn: Conn, retry: bool)   // closing unlocked, then acquire again or finish

  /** `rejectsClosed`: the driver raises when autocommit is set on a closed connection. */
  datatype Config = Config(poolMax: int, rejectsClosed: bool)

  /** `closed` and `tainted` list the connections that were closed and those whose user
      raised; `clearedIdle` counts idle connections thrown away by close_all_pools;
      `readmitted` counts releases that listed a connection which close_all_pools had
      already dropped. */
  datatype State = State(pool: Pool, pcs: seq<Pc>, nextId: nat, closed: set<Conn>, tainted: set<Conn>,
                         clearedIdle: nat, readmitted: nat)

  datatype Action =
    | Request(who: nat)
    | Enter(who: nat, expired: bool)
    | WaitOver(who: nat)
    | Probe(who: nat, usable: bool)
    | Drop(who: nat)
    | Connect(who: nat, connects: bool)
    | Enlist(who: nat)
    | Finish(who: nat, raised: bool)
    | Check(who: nat, usable: bool)
    | Release(who: nat, autocommitSet: bool)
    | Close(who: nat)
    | CloseAll

  predicate Holds(pc: Pc) {
    pc.Probing? || pc.Discarding? || pc.Holding? || pc.Checking? || pc.Returning?
  }

  predicate Carries(pc: Pc) {
    Holds(pc) || pc.Registering? || pc.Closing?
  }

  /** In the window between the decision to create and the listing of the result. */
  predicate Creating(pc: Pc) {
    pc.Connecting? || pc.Registering?
  }

  /** `notify_all`: every parked caller starts its acquire loop again. */
  function Notified(pcs: seq<Pc>): (r: seq<Pc>)
    ensures |r| == |pcs|
    ensures forall i :: 0 <= i < |r| ==> r[i] == if pcs[i].Parked? then Wanting else pcs[i]
  {
    seq(|pcs|, i requires 0 <= i < |pcs| => if pcs[i].Parked? then Wanting else pcs[i])
  }

  function Init(callers: nat): State {
    State(Pool([], [], 0, 0, 0), seq(callers, _ => Idle), 0, {}, {}, 0, 0)
  }

  /** Whether the action can happen. A closed connection never passes a probe. */
  predicate Enabled(cfg: Config, s: State, a: Action) {
    a.CloseAll? ||
    (a.who < |s.pcs| &&
     var pc := s.pcs[a.who];
     match a
     case Request(_) => pc.Idle?
     case Enter(_, _) => pc.Wanting?
     case WaitOver(_) => pc.Parked?
     case Probe(_, usable) => pc.Probing? && (usable ==> pc.conn !in s.closed)
     case Drop(_) => pc.Discarding?
     case Connect(_, _) => pc.Connecting?
     case Enlist(_) => pc.Registering?
     case Finish(_, _) => pc.Holding?
     case Check(_, usable) => pc.Checking? && (usable ==> pc.conn !in s.closed)
     case Release(_, autocommitSet) =>
       pc.Returning? && (cfg.rejectsClosed && autocommitSet ==> pc.conn !in s.closed)
     case Close(_) => pc.Closing?
     case CloseAll => true)
  }

  function Apply(cfg: Config, s: State, a: Action): State
    requires Enabled(cfg, s, a)
  {
    match a
    case Request(i) => s.(pcs := s.pcs[i := Wanting])
    case Enter(i, expired) =>
      var (p, g) := Take(s.pool, cfg.poolMax);
      (match g
       case Reuse(c) => s.(pool := p, pcs := s.pcs[i := Probing(c)])
       case Create => s.(pcs := s.pcs[i := Connecting])
       case Full => s.(pcs := s.pcs[i := if expired then Idle else Parked]))
    case WaitOver(i) => s.(pcs := s.pcs[i := Wanting])
    case Probe(i, usable) =>
      var c := s.pcs[i].conn;
      s.(pcs := s.pcs[i := if usable then Holding(c) else Discarding(c)])
    case Drop(i) =>
      var c := s.pcs[i].conn;
      s.(pool := Discard(s.pool, c), pcs := Notified(s.pcs[i := Closing(c, true)]))
    case Connect(i, connects) =>
      if connects then s.(pcs := s.pcs[i := Registering(s.nextId)], nextId := s.nextId + 1)
      else s.(pcs := s.pcs[i := Idle])
    case Enlist(i) =>
      var c := s.pcs[i].conn;
      s.(pool := Register(s.pool, c), pcs := s.pcs[i := Holding(c)])
    case Finish(i, raised) =>
      var c := s.pcs[i].conn;
      if raised then s.(pcs := s.pcs[i := Returning(c, false)], tainted := s.tainted + {c})
      else s.(pcs := s.pcs[i := Checking(c)])
    case Check(i, usable) => s.(pcs := s.pcs[i := Returning(s.pcs[i].conn, usable)])
    case Release(i, autocommitSet) =>
      var c := s.pcs[i].conn;
      var keep := s.pcs[i].keep && autocommitSet;
      var listed := keep && |s.pool.available| < Cap(cfg.poolMax);
      s.(pool := Return(s.pool, c, keep, cfg.poolMax),
         pcs := Notified(s.pcs[i := if listed then Idle else Closing(c, false)]),
         readmitted := s.readmitted + if listed && c !in s.pool.inUse then 1 else 0)
    case Close(i) =>
      var Closing(c, retry) := s.pcs[i];
      s.(pcs := s.pcs[i := if retry then Wanting else Idle], closed := s.closed + {c})
    case CloseAll =>
      s.(pool := Clear(s.pool), pcs := Notified(s.pcs),
         closed := s.closed + (set c | c in s.pool.available) + (set c | c in s.pool.inUse),
         clearedIdle := s.clearedIdle + |s.pool.available|)
  }

  /** One scheduling choice; an action that is not enabled leaves the state alone, so
      every list of actions denotes a run and every run is denoted by one. */
  function Next(cfg: Config, s: State, a: Action): State {
    if Enabled(cfg, s, a) then Apply(cfg, s, a) else s
  }

  function After(cfg: Config, callers: nat, run: seq<Action>): State {
    if run == [] then Init(callers)
    else Next(cfg, After(cfg, callers, run[..|run| - 1]), run[|run| - 1])
  }

  // ---------------------------------------------------------------- invariants

  ghost function Holders(s: State): set<int> {
    set i | 0 <= i < |s.pcs| && Holds(s.pcs[i])
  }

  /** The holders whose connection the pool still lists as in use. */
  ghost function Owners(s: State): set<int> {
    set i | 0 <= i < |s.pcs| && Holds(s.pcs[i]) && s.pcs[i].conn in s.pool.inUse
  }

  /** The holders whose connection close_all_pools dropped while they held it. */
  ghost function Orphans(s: State): set<int> {
    set i | 0 <= i < |s.pcs| && Holds(s.pcs[i]) && s.pcs[i].conn !in s.pool.inUse
  }

  ghost function Creators(s: State): set<int> {
    set i | 0 <= i < |s.pcs| && Creating(s.pcs[i])
  }

  /** Nobody shares a connection, and a listed connection is where it is listed. */
  ghost predicate Exclusive(s: State) {
    && s.pool.Valid()
    && (forall i, j :: 0 <= i < j < |s.pcs| && Carries(s.pcs[i]) && Carries(s.pcs[j]) ==>
          s.pcs[i].conn != s.pcs[j].conn)
    && (forall i :: 0 <= i < |s.pcs| && Carries(s.pcs[i]) ==>
          s.pcs[i].conn < s.nextId && s.pcs[i].conn !in s.pool.available)
    && (forall i :: 0 <= i < |s.pcs| && Carries(s.pcs[i]) && !Holds(s.pcs[i]) ==> s.pcs[i].conn !in s.pool.inUse)
    && (forall c :: c in s.pool.available || c in s.pool.inUse ==> c < s.nextId)
  }

  /** A connection whose user raised is on its way out and is nowhere else. */
  ghost predicate Quarantined(s: State) {
    && (forall c :: c in s.tainted ==> c < s.nextId && c !in s.pool.available)
    && (forall i :: 0 <= i < |s.pcs| && Carries(s.pcs[i]) && s.pcs[i].conn in s.tainted ==>
          s.pcs[i].Closing? || s.pcs[i] == Returning(s.pcs[i].conn, false))
  }

  ghost predicate NoneWaitsInVain(cfg: Config, s: State) {
    (exists i :: 0 <= i < |s.pcs| && s.pcs[i].Parked?) ==>
      s.pool.available == [] && |s.pool.inUse| >= Cap(cfg.poolMax)
  }

  ghost predicate Counted(s: State) {
    && s.pool.created == |s.pool.available| + |Holders(s)| + s.pool.discarded + s.clearedIdle
    && |s.pool.inUse| == |Owners(s)|
  }

  ghost predicate OrphansAreClosed(cfg: Config, s: State) {
    && (forall c :: c in s.closed ==> c < s.nextId)
    && (forall i :: i in Orphans(s) ==> s.pcs[i].conn in s.closed)
    && (cfg.rejectsClosed ==> s.readmitted == 0 && forall c :: c in s.pool.available ==> c !in s.closed)
  }

  ghost predicate Inv(cfg: Config, s: State) {
    && Exclusive(s)
    && Quarantined(s)
    && NoneWaitsInVain(cfg, s)
    && Counted(s)
    && OrphansAreClosed(cfg, s)
    && |s.pool.available| <= Cap(cfg.poolMax)
  }

  lemma PoolStaysValid(cfg: Config, s: State, a: Action)
    requires Exclusive(s) && Enabled(cfg, s, a)
    ensures Apply(cfg, s, a).pool.Valid()
    ensures var p := Apply(cfg, s, a).pool;
      && (forall c :: c in p.available ==>
            c in s.pool.available || (a.Release? && c == s.pcs[a.who].conn && c !in p.inUse))
      && (forall c :: c in p.inUse ==>
            c in s.pool.inUse || (a.Enlist? && c == s.pcs[a.who].conn) || (c in s.pool.available && c !in p.available))
  {
    match a
    case Enter(_, _) => TakeEffect(s.pool, cfg.poolMax);
    case Drop(i) => RemoveFirstEffect(s.pool.inUse, s.pcs[i].conn);
    case Enlist(i) => NoDupAppend(s.pool.inUse, s.pcs[i].conn);
    case Release(i, _) =>
      RemoveFirstEffect(s.pool.inUse, s.pcs[i].conn);
      NoDupAppend(s.pool.available, s.pcs[i].conn);
    case _ =>
  }

  /** What a caller carries after a step is what it carried before, or is fresh, or
      was just popped from the idle connections. */
  lemma Provenance(cfg: Config, s: State, a: Action, j: nat)
    requires Exclusive(s) && Enabled(cfg, s, a) && j < |s.pcs|
    requires Carries(Apply(cfg, s, a).pcs[j])
    ensures var t := Apply(cfg, s, a); var c := t.pcs[j].conn;
      || (Carries(s.pcs[j]) && s.pcs[j].conn == c)
      || (a == Connect(j, true) && c == s.nextId)
      || (a.Enter? && a.who == j && c in s.pool.available && c !in t.pool.available && t.pcs[j].Probing?)
    ensures var t := Apply(cfg, s, a); var c := t.pcs[j].conn;
      c < t.nextId && c !in t.pool.available && (c in t.pool.inUse ==> Holds(t.pcs[j]))
  {
    PoolStaysValid(cfg, s, a);
    if a.Enter? {
      TakeEffect(s.pool, cfg.poolMax);
    } else if a.Drop? || a.Release? {
      RemoveFirstEffect(s.pool.inUse, s.pcs[a.who].conn);
    }
  }

  lemma ExclusiveStep(cfg: Config, s: State, a: Action)
    requires Exclusive(s) && Enabled(cfg, s, a)
    ensures Exclusive(Apply(cfg, s, a))
  {
    var t := Apply(cfg, s, a);
    PoolStaysValid(cfg, s, a);
    forall i | 0 <= i < |t.pcs| && Carries(t.pcs[i])
      ensures t.pcs[i].conn < t.nextId && t.pcs[i].conn !in t.pool.available
      ensures !Holds(t.pcs[i]) ==> t.pcs[i].conn !in t.pool.inUse
      ensures forall j :: 0 <= j < |t.pcs| && j != i && Carries(t.pcs[j]) ==> t.pcs[j].conn != t.pcs[i].conn
    {
      Provenance(cfg, s, a, i);
      forall j | 0 <= j < |t.pcs| && j != i && Carries(t.pcs[j]) ensures t.pcs[j].conn != t.pcs[i].conn {
        Provenance(cfg, s, a, j);
      }
    }
  }

  lemma QuarantineStep(cfg: Config, s: State, a: Action)
    requires Exclusive(s) && Quarantined(s) && Enabled(cfg, s, a)
    ensures Quarantined(Apply(cfg, s, a))
  {
    var t := Apply(cfg, s, a);
    PoolStaysValid(cfg, s, a);
    forall i | 0 <= i < |t.pcs| && Carries(t.pcs[i]) && t.pcs[i].conn in t.tainted
      ensures t.pcs[i].Closing? || t.pcs[i] == Returning(t.pcs[i].conn, false)
    {
      Provenance(cfg, s, a, i);
    }
  }

  lemma WaitersStep(cfg: Config, s: State, a: Action)
    requires Exclusive(s) && NoneWaitsInVain(cfg, s) && Enabled(cfg, s, a)
    ensures NoneWaitsInVain(cfg, Apply(cfg, s, a))
  {
    var t := Apply(cfg, s, a);
    if i :| 0 <= i < |t.pcs| && t.pcs[i].Parked? {
      assert s.pcs[i].Parked? || (a.Enter? && i == a.who);
    }
  }

  /** A step of one caller does not touch what another caller carries. */
  lemma OthersKeep(cfg: Config, s: State, a: Action, j: nat)
    requires Exclusive(s) && Enabled(cfg, s, a) && !a.CloseAll? && j < |s.pcs| && j != a.who
    ensures var pc, pc' := s.pcs[j], Apply(cfg, s, a).pcs[j];
      && (if Carries(pc) then pc' == pc else !Carries(pc'))
      && (Holds(pc) ==> (pc.conn in s.pool.inUse <==> pc.conn in Apply(cfg, s, a).pool.inUse))
  {
    match a
    case Enter(_, _) => TakeEffect(s.pool, cfg.poolMax);
    case Drop(i) => RemoveFirstEffect(s.pool.inUse, s.pcs[i].conn);
    case Release(i, _) => RemoveFirstEffect(s.pool.inUse, s.pcs[i].conn);
    case _ =>
  }

  /** The acting caller's own move in or out of the holders and the owners. */
  ghost predicate ActorMoves(s: State, t: State, a: Action)
    requires !a.CloseAll? && a.who < |s.pcs| == |t.pcs|
  {
    var i := a.who;
    if a.Drop? || a.Release? then i in Holders(s) && i !in Holders(t)
    else if i in Holders(t) && i !in Holders(s) then i in Owners(t)
    else (i in Holders(t) <==> i in Holders(s)) && (i in Owners(t) <==> i in Owners(s))
  }

  lemma ActorMovesStep(cfg: Config, s: State, a: Action)
    requires Exclusive(s) && Enabled(cfg, s, a) && !a.CloseAll?
    ensures ActorMoves(s, Apply(cfg, s, a), a)
  {
    match a
    case Enter(_, _) => TakeEffect(s.pool, cfg.poolMax);
    case _ =>
  }

  /** How one step changes the sets of holders and of owners. */
  lemma CountStep(cfg: Config, s: State, a: Action)
    requires Exclusive(s) && Enabled(cfg, s, a) && !a.CloseAll?
    ensures var t := Apply(cfg, s, a);
      && ActorMoves(s, t, a)
      && Holders(t) - {a.who} == Holders(s) - {a.who}
      && Owners(t) - {a.who} == Owners(s) - {a.who}
  {
    ActorMovesStep(cfg, s, a);
    var t := Apply(cfg, s, a);
    forall j | j != a.who
      ensures j in Holders(t) <==> j in Holders(s)
      ensures j in Owners(t) <==> j in Owners(s)
    {
      if 0 <= j < |s.pcs| {
        OthersKeep(cfg, s, a, j);
      }
    }
  }

  lemma ActorKeepsConn(cfg: Config, s: State, a: Action)
    requires Exclusive(s) && Enabled(cfg, s, a) && !a.CloseAll?
    requires a.who in Holders(s) && a.who in Holders(Apply(cfg, s, a))
    ensures Apply(cfg, s, a).pcs[a.who].conn == s.pcs[a.who].conn
  {
  }

  lemma OrphansStep(cfg: Config, s: State, a: Action)
    requires Exclusive(s) && OrphansAreClosed(cfg, s) && Enabled(cfg, s, a)
    ensures OrphansAreClosed(cfg, Apply(cfg, s, a))
  {
    var t := Apply(cfg, s, a);
    assert s.closed <= t.closed;
    forall i | i in Orphans(t) ensures t.pcs[i].conn in t.closed {
      if a.CloseAll? {
        assert t.pcs[i] == s.pcs[i];
        assert i in Orphans(s) || s.pcs[i].conn in s.pool.inUse;
      } else if i == a.who {
        ActorMovesStep(cfg, s, a);
        assert i in Holders(s) && i !in Owners(s);
        ActorKeepsConn(cfg, s, a);
        assert i in Orphans(s);
      } else {
        OthersKeep(cfg, s, a, i);
        assert i in Orphans(s);
      }
    }
    ClosedStayOut(cfg, s, a);
  }

  lemma ClosedStayOut(cfg: Config, s: State, a: Action)
    requires Exclusive(s) && OrphansAreClosed(cfg, s) && Enabled(cfg, s, a)
    ensures var t := Apply(cfg, s, a);
      cfg.rejectsClosed ==> t.readmitted == 0 && forall c :: c in t.pool.available ==> c !in t.closed
  {
    PoolStaysValid(cfg, s, a);
    if a.Release? {
      assert a.who in Orphans(s) <==> s.pcs[a.who].conn !in s.pool.inUse;
    }
  }

  lemma SizeFromRest(x: set<int>, y: set<int>, i: int)
    requires x - {i} == y - {i}
    ensures |x| - (if i in x then 1 else 0) == |y| - (if i in y then 1 else 0)
  {
    assert x == (x - {i}) + (if i in x then {i} else {});
    assert y == (y - {i}) + (if i in y then {i} else {});
  }

  lemma CountedStep(cfg: Config, s: State, a: Action)
    requires Exclusive(s) && Counted(s) && Enabled(cfg, s, a)
    ensures Counted(Apply(cfg, s, a))
  {
    var t := Apply(cfg, s, a);
    if a.CloseAll? {
      assert Holders(t) == Holders(s) && Owners(t) == {};
    } else {
      CountStep(cfg, s, a);
      SizeFromRest(Holders(s), Holders(t), a.who);
      SizeFromRest(Owners(s), Owners(t), a.who);
      BooksMove(cfg, s, a);
    }
  }

  /** Connections on the books that are not idle. */
  ghost function Out(s: State): int {
    s.pool.created - |s.pool.available| - s.pool.discarded - s.clearedIdle
  }

  function One(b: bool): int {
    if b then 1 else 0
  }

  /** The books change by the acting caller's own move. */
  lemma BooksMove(cfg: Config, s: State, a: Action)
    requires Exclusive(s) && Enabled(cfg, s, a) && !a.CloseAll?
    ensures var t := Apply(cfg, s, a);
      && Out(t) - Out(s) == One(a.who in Holders(t)) - One(a.who in Holders(s))
      && |t.pool.inUse| - |s.pool.inUse| == One(a.who in Owners(t)) - One(a.who in Owners(s))
  {
    ActorMovesStep(cfg, s, a);
    match a
    case Drop(i) => RemoveFirstEffect(s.pool.inUse, s.pcs[i].conn);
    case Release(i, _) => RemoveFirstEffect(s.pool.inUse, s.pcs[i].conn);
    case Enter(_, _) => TakeEffect(s.pool, cfg.poolMax);
    case _ =>
  }

  lemma {:induction false} InvHolds(cfg: Config, callers: nat, run: seq<Action>)
    ensures Inv(cfg, After(cfg, callers, run))
    ensures |After(cfg, callers, run).pcs| == callers
  {
    if run == [] {
      var s := Init(callers);
      assert Holders(s) == {} && Owners(s) == {};
    } else {
      var a := run[|run| - 1];
      InvHolds(cfg, callers, run[..|run| - 1]);
      InvStep(cfg, After(cfg, callers, run[..|run| - 1]), a);
    }
  }

  lemma InvStep(cfg: Config, s: State, a: Action)
    requires Inv(cfg, s)
    ensures Inv(cfg, Next(cfg, s, a))
    ensures |Next(cfg, s, a).pcs| == |s.pcs|
  {
    if Enabled(cfg, s, a) {
      ExclusiveStep(cfg, s, a);
      QuarantineStep(cfg, s, a);
      WaitersStep(cfg, s, a);
      CountedStep(cfg, s, a);
      OrphansStep(cfg, s, a);
    }
  }

  // ---------------------------------------------------------------- waiting

  /** No wake-up is lost: a caller stays parked only while the pool is full and as many others
      as the cap own its connections, so whenever a connection is idle or there is room,
      nobody is parked and the next attempt of every waiting caller gets a connection or
      starts creating one. A timeout is raised only at an instant when the pool is full. */
  lemma {:induction false} NoLostWakeUp(cfg: Config, callers: nat, run: seq<Action>, i: nat, expired: bool)
    requires i < callers
    ensures var s := After(cfg, callers, run);
      |s.pcs| == callers &&
      var full := s.pool.available == [] && s.pool.Size() >= cfg.poolMax && s.pool.Size() >= 1;
      var t := Next(cfg, s, Enter(i, expired));
      && (s.pcs[i].Parked? ==> full && |Owners(s)| >= cfg.poolMax && |Owners(s)| >= 1)
      && (s.pcs[i].Wanting? && !full ==> t.pcs[i].Probing? || t.pcs[i].Connecting?)
      && (s.pcs[i].Wanting? && t.pcs[i].Idle? ==> full && expired)
      && (s.pcs[i].Wanting? && full ==> t.pcs[i] == if expired then Idle else Parked)
  {
    InvHolds(cfg, callers, run);
  }

  // ---------------------------------------------------------------- ownership

  lemma {:induction false} ExclusiveOwnership(cfg: Config, callers: nat, run: seq<Action>)
    ensures var s := After(cfg, callers, run);
      && s.pool.Valid()
      && |s.pool.available| <= Cap(cfg.poolMax)
      && (forall i, j :: 0 <= i < j < |s.pcs| && s.pcs[i].Holding? && s.pcs[j].Holding? ==>
            s.pcs[i].conn != s.pcs[j].conn)
      && (forall i :: 0 <= i < |s.pcs| && s.pcs[i].Holding? ==> s.pcs[i].conn !in s.pool.available)
      && |s.pool.inUse| == |Owners(s)|
  {
    InvHolds(cfg, callers, run);
  }

  lemma {:induction false} TaintStays(cfg: Config, callers: nat, run: seq<Action>, more: seq<Action>, c: Conn)
    requires c in After(cfg, callers, run).tainted
    ensures c in After(cfg, callers, run + more).tainted
  {
    if more == [] {
      assert run + more == run;
    } else {
      TaintStays(cfg, callers, run, more[..|more| - 1], c);
      assert (run + more)[..|run + more| - 1] == run + more[..|more| - 1];
    }
  }

  /** A connection whose user raised is never handed out again, whatever happens next,
      close_all_pools included. */
  lemma {:induction false} RaisedNeverHandedOut(cfg: Config, callers: nat, run: seq<Action>, i: nat, more: seq<Action>)
    requires var s := After(cfg, callers, run); i < |s.pcs| && s.pcs[i].Holding?
    ensures var c := After(cfg, callers, run).pcs[i].conn;
      var t := After(cfg, callers, run + [Finish(i, true)] + more);
      && c !in t.pool.available
      && forall j :: 0 <= j < |t.pcs| && Holds(t.pcs[j]) && t.pcs[j].conn == c ==> t.pcs[j] == Returning(c, false)
  {
    var c := After(cfg, callers, run).pcs[i].conn;
    var raised := run + [Finish(i, true)];
    assert raised[..|raised| - 1] == run;
    assert c in After(cfg, callers, raised).tainted;
    TaintStays(cfg, callers, raised, more, c);
    InvHolds(cfg, callers, raised + more);
  }

  // ---------------------------------------------------------------- conservation

  /** Every connection ever registered is idle, in use, discarded, thrown away while idle
      by close_all_pools, or still with a caller that close_all_pools overtook. */
  lemma {:induction false} Conservation(cfg: Config, callers: nat, run: seq<Action>)
    ensures var s := After(cfg, callers, run);
      s.pool.created == |s.pool.available| + |s.pool.inUse| + s.pool.discarded + s.clearedIdle + |Orphans(s)|
  {
    InvHolds(cfg, callers, run);
    HoldersSplit(After(cfg, callers, run));
  }

  lemma HoldersSplit(s: State)
    ensures |Holders(s)| == |Owners(s)| + |Orphans(s)|
  {
    assert Holders(s) == Owners(s) + Orphans(s);
    assert Owners(s) !! Orphans(s);
  }

  lemma {:induction false} ConservationBeforeShutdown(cfg: Config, callers: nat, run: seq<Action>)
    requires CloseAll !in run
    ensures var s := After(cfg, callers, run);
      Orphans(s) == {} && s.clearedIdle == 0 && s.readmitted == 0 &&
      s.pool.created == s.pool.Size() + s.pool.discarded
  {
    Conservation(cfg, callers, run);
    if run != [] {
      var before, a := run[..|run| - 1], run[|run| - 1];
      ConservationBeforeShutdown(cfg, callers, before);
      InvHolds(cfg, callers, before);
      var s := After(cfg, callers, before);
      if Enabled(cfg, s, a) {
        assert a in run;
        NoNewOrphans(cfg, s, a);
      }
    }
  }

  lemma NoNewOrphans(cfg: Config, s: State, a: Action)
    requires Exclusive(s) && Enabled(cfg, s, a) && !a.CloseAll? && Orphans(s) == {}
    ensures Orphans(Apply(cfg, s, a)) == {}
    ensures Apply(cfg, s, a).readmitted == s.readmitted
  {
    var t := Apply(cfg, s, a);
    ActorMovesStep(cfg, s, a);
    forall i | 0 <= i < |s.pcs| && Holds(t.pcs[i]) ensures t.pcs[i].conn in t.pool.inUse {
      assert i !in Orphans(s);
      if i == a.who {
        assert i in Holders(t);
        assert i in Holders(s) ==> i in Owners(s);
        assert i in Owners(t);
      } else {
        OthersKeep(cfg, s, a, i);
      }
    }
    if a.Release? {
      assert a.who !in Orphans(s);
    }
  }
}
