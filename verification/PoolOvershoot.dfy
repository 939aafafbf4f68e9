/** How large the pool really gets: runs that reach the bound of PoolSize.SizeBound,
    and the one assumption about the driver that the bound needs. */
module PoolOvershoot {
  import opened Collections
  import opened Pool
  import opened PoolProtocol
  import opened PoolSize

  /** The callers before `base` are left alone, the next `held` each hold a connection,
      the next `connecting` are connecting, and the others are idle. No listed connection
      is older than `floor`. */
  ghost predicate Stage(s: State, kept: seq<Pc>, floor: Conn, held: nat, connecting: nat) {
    var base := |kept|;
    && s.pool.available == [] && |s.pool.inUse| == held
    && base + held + connecting <= |s.pcs| && s.pcs[..base] == kept
    && floor <= s.nextId && (forall c :: c in s.pool.inUse ==> floor <= c)
    && (forall i :: base <= i < |s.pcs| ==>
          if i < base + held then s.pcs[i].Holding?
          else if i < base + held + connecting then s.pcs[i].Connecting?
          else s.pcs[i].Idle?)
  }

  ghost predicate SameCallersAndClosed(s: State, t: State) {
    |t.pcs| == |s.pcs| && t.closed == s.closed
  }

  ghost predicate Quiet(pcs: seq<Pc>) {
    forall i :: 0 <= i < |pcs| ==> !Creating(pcs[i]) && !pcs[i].Parked?
  }

  lemma Extend(cfg: Config, callers: nat, run: seq<Action>, a: Action, n: nat)
    requires WindowWithin(cfg, callers, run, n)
    requires |Creators(Next(cfg, After(cfg, callers, run), a))| <= n
    ensures After(cfg, callers, run + [a]) == Next(cfg, After(cfg, callers, run), a)
    ensures WindowWithin(cfg, callers, run + [a], n)
  {
    assert (run + [a])[..|run + [a]| - 1] == run;
  }

  lemma ExtendTwice(cfg: Config, callers: nat, run: seq<Action>, a: Action, b: Action, n: nat)
    returns (longer: seq<Action>)
    requires WindowWithin(cfg, callers, run, n)
    requires |Creators(Next(cfg, After(cfg, callers, run), a))| <= n
    requires |Creators(Next(cfg, Next(cfg, After(cfg, callers, run), a), b))| <= n
    ensures After(cfg, callers, longer) == Next(cfg, Next(cfg, After(cfg, callers, run), a), b)
    ensures WindowWithin(cfg, callers, longer, n)
  {
    Extend(cfg, callers, run, a, n);
    Extend(cfg, callers, run + [a], b, n);
    longer := run + [a] + [b];
  }

  lemma CreatorsAt(s: State, lo: nat, k: nat)
    requires lo + k <= |s.pcs|
    requires forall i :: 0 <= i < |s.pcs| ==> (Creating(s.pcs[i]) <==> lo <= i < lo + k)
    ensures |Creators(s)| == k
  {
    assert Creators(s) == Interval(lo, k);
  }

  /** One more caller decides to create. */
  lemma StartOne(cfg: Config, callers: nat, run: seq<Action>, kept: seq<Pc>, floor: Conn, held: nat,
                 connecting: nat, n: nat)
    returns (longer: seq<Action>)
    requires WindowWithin(cfg, callers, run, n) && Quiet(kept)
    requires Stage(After(cfg, callers, run), kept, floor, held, connecting)
    requires |kept| + held + connecting < |After(cfg, callers, run).pcs|
    requires held < Cap(cfg.poolMax) && connecting < n
    ensures WindowWithin(cfg, callers, longer, n)
    ensures Stage(After(cfg, callers, longer), kept, floor, held, connecting + 1)
    ensures SameCallersAndClosed(After(cfg, callers, run), After(cfg, callers, longer))
  {
    var s, i := After(cfg, callers, run), |kept| + held + connecting;
    StartMoves(cfg, s, kept, floor, held, connecting);
    ghost var t := Next(cfg, Next(cfg, s, Request(i)), Enter(i, false));
    longer := ExtendTwice(cfg, callers, run, Request(i), Enter(i, false), n);
    assert After(cfg, callers, longer) == t;
  }

  lemma StartMoves(cfg: Config, s: State, kept: seq<Pc>, floor: Conn, held: nat, connecting: nat)
    requires Quiet(kept) && Stage(s, kept, floor, held, connecting)
    requires |kept| + held + connecting < |s.pcs| && held < Cap(cfg.poolMax)
    ensures var i := |kept| + held + connecting;
      var s1 := Next(cfg, s, Request(i));
      var t := Next(cfg, s1, Enter(i, false));
      && |Creators(s1)| == connecting && |Creators(t)| == connecting + 1
      && Stage(t, kept, floor, held, connecting + 1) && SameCallersAndClosed(s, t)
  {
    var base, i := |kept|, |kept| + held + connecting;
    KeptApart(s.pcs, kept);
    var s1 := Next(cfg, s, Request(i));
    assert s1 == s.(pcs := s.pcs[i := Wanting]);
    CreatorsAt(s1, base + held, connecting);
    var t := Next(cfg, s1, Enter(i, false));
    assert t == s.(pcs := s.pcs[i := Connecting]);
    CreatorsAt(t, base + held, connecting + 1);
    assert t.pcs[..base] == kept;
  }

  lemma KeptApart(pcs: seq<Pc>, kept: seq<Pc>)
    requires |kept| <= |pcs| && pcs[..|kept|] == kept && Quiet(kept)
    ensures forall j :: 0 <= j < |kept| ==> !Creating(pcs[j]) && !pcs[j].Parked?
  {
    assert forall j :: 0 <= j < |kept| ==> pcs[j] == kept[j];
  }

  /** The first connecting caller gets its connection. */
  lemma FinishOne(cfg: Config, callers: nat, run: seq<Action>, kept: seq<Pc>, floor: Conn, held: nat,
                  connecting: nat, n: nat)
    returns (longer: seq<Action>)
    requires WindowWithin(cfg, callers, run, n) && Quiet(kept)
    requires Stage(After(cfg, callers, run), kept, floor, held, connecting)
    requires 1 <= connecting <= n
    ensures WindowWithin(cfg, callers, longer, n)
    ensures Stage(After(cfg, callers, longer), kept, floor, held + 1, connecting - 1)
    ensures SameCallersAndClosed(After(cfg, callers, run), After(cfg, callers, longer))
  {
    var s, i := After(cfg, callers, run), |kept| + held;
    FinishMoves(cfg, s, kept, floor, held, connecting);
    ghost var t := Next(cfg, Next(cfg, s, Connect(i, true)), Enlist(i));
    longer := ExtendTwice(cfg, callers, run, Connect(i, true), Enlist(i), n);
    assert After(cfg, callers, longer) == t;
  }

  lemma FinishMoves(cfg: Config, s: State, kept: seq<Pc>, floor: Conn, held: nat, connecting: nat)
    requires Quiet(kept) && Stage(s, kept, floor, held, connecting) && connecting >= 1
    ensures var i := |kept| + held;
      var s1 := Next(cfg, s, Connect(i, true));
      var t := Next(cfg, s1, Enlist(i));
      && |Creators(s1)| == connecting && |Creators(t)| == connecting - 1
      && Stage(t, kept, floor, held + 1, connecting - 1) && SameCallersAndClosed(s, t)
  {
    var base, i := |kept|, |kept| + held;
    KeptApart(s.pcs, kept);
    var s1 := Next(cfg, s, Connect(i, true));
    assert s1 == s.(pcs := s.pcs[i := Registering(s.nextId)], nextId := s.nextId + 1);
    CreatorsAt(s1, base + held, connecting);
    var t := Next(cfg, s1, Enlist(i));
    assert t == s1.(pool := Register(s.pool, s.nextId), pcs := s.pcs[i := Holding(s.nextId)]) by {
      assert s1.pcs[i := Holding(s.nextId)] == s.pcs[i := Holding(s.nextId)];
    }
    CreatorsAt(t, base + held + 1, connecting - 1);
    assert t.pcs[..base] == kept;
  }

  /** Callers one after the other, creations never overlapping. */
  lemma {:induction false} Fill(cfg: Config, callers: nat, run: seq<Action>, kept: seq<Pc>, floor: Conn, held: nat,
                                n: nat)
    returns (longer: seq<Action>)
    requires WindowWithin(cfg, callers, run, n) && Quiet(kept) && n >= 1
    requires Stage(After(cfg, callers, run), kept, floor, 0, 0)
    requires |kept| + held <= |After(cfg, callers, run).pcs| && held <= Cap(cfg.poolMax)
    ensures WindowWithin(cfg, callers, longer, n)
    ensures Stage(After(cfg, callers, longer), kept, floor, held, 0)
    ensures SameCallersAndClosed(After(cfg, callers, run), After(cfg, callers, longer))
  {
    longer := run;
    if held > 0 {
      longer := Fill(cfg, callers, run, kept, floor, held - 1, n);
      longer := StartOne(cfg, callers, longer, kept, floor, held - 1, 0, n);
      longer := FinishOne(cfg, callers, longer, kept, floor, held - 1, 1, n);
    }
  }

  /** `k` callers decide to create before any of them has finished. */
  lemma {:induction false} Rush(cfg: Config, callers: nat, run: seq<Action>, floor: Conn, held: nat, k: nat, n: nat)
    returns (longer: seq<Action>)
    requires k <= n && WindowWithin(cfg, callers, run, n)
    requires Stage(After(cfg, callers, run), [], floor, held, 0)
    requires held + k <= |After(cfg, callers, run).pcs| && held < Cap(cfg.poolMax)
    ensures WindowWithin(cfg, callers, longer, n)
    ensures Stage(After(cfg, callers, longer), [], floor, held, k)
    ensures SameCallersAndClosed(After(cfg, callers, run), After(cfg, callers, longer))
  {
    longer := run;
    if k > 0 {
      longer := Rush(cfg, callers, run, floor, held, k - 1, n);
      longer := StartOne(cfg, callers, longer, [], floor, held, k - 1, n);
    }
  }

  /** They all get their connections. */
  lemma {:induction false} Drain(cfg: Config, callers: nat, run: seq<Action>, floor: Conn, held: nat, k: nat, n: nat)
    returns (longer: seq<Action>)
    requires k <= n && WindowWithin(cfg, callers, run, n)
    requires Stage(After(cfg, callers, run), [], floor, held, k)
    ensures WindowWithin(cfg, callers, longer, n)
    ensures Stage(After(cfg, callers, longer), [], floor, held + k, 0)
    decreases k
  {
    longer := run;
    if k > 0 {
      longer := FinishOne(cfg, callers, run, [], floor, held, k, n);
      longer := Drain(cfg, callers, longer, floor, held + 1, k - 1, n);
    }
  }

  lemma Begin(cfg: Config, callers: nat, n: nat)
    ensures WindowWithin(cfg, callers, [], n)
    ensures Stage(After(cfg, callers, []), [], 0, 0, 0)
    ensures SameCallersAndClosed(After(cfg, callers, []), Init(callers))
  {
    CreatorsAt(Init(callers), 0, 0);
  }

  /** The most connections that `callers` callers, `n` of them creating at once, can list. */
  function Most(cfg: Config, callers: nat, n: nat): nat
    requires n >= 1
  {
    if callers < Cap(cfg.poolMax) - 1 + n then callers else Cap(cfg.poolMax) - 1 + n
  }

  ghost predicate Reaches(cfg: Config, callers: nat, run: seq<Action>, n: nat, size: nat) {
    WindowWithin(cfg, callers, run, n) && After(cfg, callers, run).pool.Size() == size
  }

  /** Some run reaches that many: for every cap, any number of callers and any number of
      overlapping creations. */
  lemma OvershootIsReached(cfg: Config, callers: nat, n: nat)
    requires n >= 1
    ensures exists run :: Reaches(cfg, callers, run, n, Most(cfg, callers, n))
  {
    Begin(cfg, callers, n);
    var held := if callers < Cap(cfg.poolMax) then callers else Cap(cfg.poolMax) - 1;
    var run := Fill(cfg, callers, [], [], 0, held, n);
    if callers >= Cap(cfg.poolMax) {
      run := Rush(cfg, callers, run, 0, held, Most(cfg, callers, n) - held, n);
      run := Drain(cfg, callers, run, 0, held, Most(cfg, callers, n) - held, n);
    }
    assert Reaches(cfg, callers, run, n, Most(cfg, callers, n));
  }

  /** With a driver that refuses autocommit on a closed connection this is the exact bound. */
  lemma OvershootIsExact(cfg: Config, callers: nat, n: nat, size: nat)
    requires n >= 1 && cfg.rejectsClosed
    ensures (forall run :: WindowWithin(cfg, callers, run, n) ==> After(cfg, callers, run).pool.Size() <= size)
            <==> Most(cfg, callers, n) <= size
  {
    OvershootIsReached(cfg, callers, n);
    if Most(cfg, callers, n) <= size {
      forall run | WindowWithin(cfg, callers, run, n) ensures After(cfg, callers, run).pool.Size() <= size {
        SizeBound(cfg, callers, run, n);
        CallersBound(cfg, callers, run);
      }
    } else {
      var run :| Reaches(cfg, callers, run, n, Most(cfg, callers, n));
      assert WindowWithin(cfg, callers, run, n) && After(cfg, callers, run).pool.Size() > size;
    }
  }

  /** The pool stays within `pool_max` (or 1, if that is less) in every run exactly when there
      are no more callers, whatever the driver does. */
  lemma CapHoldsIff(cfg: Config, callers: nat)
    ensures cfg.poolMax >= 1 ==>
      ((forall run :: After(cfg, callers, run).pool.Size() <= cfg.poolMax) <==> callers <= cfg.poolMax)
    ensures cfg.poolMax < 1 ==>
      ((forall run :: After(cfg, callers, run).pool.Size() <= 1) <==> callers <= 1)
  {
    if callers <= Cap(cfg.poolMax) {
      forall run ensures After(cfg, callers, run).pool.Size() <= Cap(cfg.poolMax) {
        CallersBound(cfg, callers, run);
      }
    } else {
      OvershootIsReached(cfg, callers, 2);
      var run :| Reaches(cfg, callers, run, 2, Most(cfg, callers, 2));
      assert After(cfg, callers, run).pool.Size() > Cap(cfg.poolMax);
    }
  }

  /** Under a driver (not pyodbc, which refuses) that accepts autocommit on a closed connection, a release that
      close_all_pools overtook puts the dead connection back beside a full pool, although
      no two creations overlapped. */
  lemma LateReleaseOverfills(cfg: Config)
    requires !cfg.rejectsClosed
    ensures exists callers: nat, run ::
      WindowWithin(cfg, callers, run, 1) && After(cfg, callers, run).pool.Size() == Cap(cfg.poolMax) + 1
  {
    var callers := Cap(cfg.poolMax) + 1;
    var run, kept, floor := Overtaken(cfg, callers);
    run := Fill(cfg, callers, run, kept, floor, Cap(cfg.poolMax), 1);
    LateRelease(cfg, After(cfg, callers, run), kept, floor);
    run := Quietly(cfg, callers, run, Release(0, true));
  }

  lemma LateRelease(cfg: Config, t: State, kept: seq<Pc>, floor: Conn)
    requires !cfg.rejectsClosed && Stage(t, kept, floor, Cap(cfg.poolMax), 0)
    requires |kept| == 1 && kept[0].Returning? && kept[0].keep && kept[0].conn < floor
    ensures var u := Next(cfg, t, Release(0, true));
      Quiet(u.pcs) && u.pool.Size() == Cap(cfg.poolMax) + 1
  {
    assert t.pcs[0] == t.pcs[..1][0] == kept[0];
    RemoveFirstAbsent(t.pool.inUse, kept[0].conn);
  }

  /** Caller 0 works and is overtaken by the shutdown between its probe and its release. */
  lemma Overtaken(cfg: Config, callers: nat) returns (run: seq<Action>, kept: seq<Pc>, floor: Conn)
    requires callers >= 1
    ensures WindowWithin(cfg, callers, run, 1) && Quiet(kept)
    ensures |kept| == 1 && kept[0].Returning? && kept[0].keep && kept[0].conn < floor
    ensures Stage(After(cfg, callers, run), kept, floor, 0, 0)
    ensures |After(cfg, callers, run).pcs| == callers
  {
    Begin(cfg, callers, 1);
    run := Fill(cfg, callers, [], [], 0, 1, 1);
    InvHolds(cfg, callers, run);
    var s := After(cfg, callers, run);
    floor := s.nextId;
    kept := [Returning(s.pcs[0].conn, true)];
    var end := Overtake(cfg, s);
    run := Quietly(cfg, callers, run, Finish(0, false));
    run := Quietly(cfg, callers, run, Check(0, true));
    run := Quietly(cfg, callers, run, CloseAll);
  }

  lemma Overtake(cfg: Config, s: State) returns (t: State)
    requires Exclusive(s) && Stage(s, [], 0, 1, 0) && s.closed == {}
    ensures var s1 := Next(cfg, s, Finish(0, false));
      var s2 := Next(cfg, s1, Check(0, true));
      Quiet(s1.pcs) && Quiet(s2.pcs) && t == Next(cfg, s2, CloseAll)
    ensures Quiet(t.pcs) && Stage(t, [Returning(s.pcs[0].conn, true)], s.nextId, 0, 0) && |t.pcs| == |s.pcs|
  {
    var c := s.pcs[0].conn;
    var s1 := Next(cfg, s, Finish(0, false));
    assert s1 == s.(pcs := s.pcs[0 := Checking(c)]);
    var s2 := Next(cfg, s1, Check(0, true));
    assert s2 == s.(pcs := s.pcs[0 := Returning(c, true)]);
    t := Next(cfg, s2, CloseAll);
    assert t.pcs[..1] == [Returning(c, true)];
  }

  /** A step after which nobody is creating. */
  lemma Quietly(cfg: Config, callers: nat, run: seq<Action>, a: Action) returns (longer: seq<Action>)
    requires WindowWithin(cfg, callers, run, 1)
    requires Quiet(Next(cfg, After(cfg, callers, run), a).pcs)
    ensures longer == run + [a] && WindowWithin(cfg, callers, longer, 1)
    ensures After(cfg, callers, longer) == Next(cfg, After(cfg, callers, run), a)
  {
    CreatorsAt(Next(cfg, After(cfg, callers, run), a), 0, 0);
    Extend(cfg, callers, run, a, 1);
    longer := run + [a];
  }

  /** Hence the size bound holds of every run exactly when the driver refuses autocommit
      on a closed connection. */
  lemma BoundNeedsTheDriver(cfg: Config)
    ensures cfg.rejectsClosed <==>
      forall callers: nat, run, n: nat :: WindowWithin(cfg, callers, run, n) ==>
        After(cfg, callers, run).pool.Size() <= Cap(cfg.poolMax) - 1 + n
  {
    if cfg.rejectsClosed {
      forall callers: nat, run, n: nat | WindowWithin(cfg, callers, run, n)
        ensures After(cfg, callers, run).pool.Size() <= Cap(cfg.poolMax) - 1 + n
      {
        SizeBound(cfg, callers, run, n);
      }
    } else {
      LateReleaseOverfills(cfg);
    }
  }
}
