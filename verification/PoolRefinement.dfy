/** The connection manager run by one caller is a run of the protocol: what the sequential
    class computes is what the interleaved steps reach when nobody else moves. */
module PoolRefinement {
  import opened Collections
  import opened Pool
  import opened PoolProtocol
  import opened ConnectionManagers

  function Exec(cfg: Config, s: State, acts: seq<Action>): State
    decreases |acts|
  {
    if acts == [] then s else Exec(cfg, Next(cfg, s, acts[0]), acts[1..])
  }

  lemma {:induction false} ExecAppend(cfg: Config, s: State, first: seq<Action>, second: seq<Action>)
    ensures Exec(cfg, s, first + second) == Exec(cfg, Exec(cfg, s, first), second)
    decreases |first|
  {
    if first == [] {
      assert first + second == second;
    } else {
      ExecAppend(cfg, Next(cfg, s, first[0]), first[1..], second);
      assert (first + second)[1..] == first[1..] + second;
    }
  }

  lemma {:induction false} ExecIsAfter(cfg: Config, callers: nat, run: seq<Action>, more: seq<Action>)
    ensures Exec(cfg, After(cfg, callers, run), more) == After(cfg, callers, run + more)
    decreases |more|
  {
    if more == [] {
      assert run + more == run;
    } else {
      var s1 := After(cfg, callers, run + [more[0]]);
      assert Exec(cfg, s1, more[1..]) == After(cfg, callers, run + more) by {
        ExecIsAfter(cfg, callers, run + [more[0]], more[1..]);
        assert run + [more[0]] + more[1..] == run + more;
      }
      AfterOneMore(cfg, callers, run, more[0]);
    }
  }

  lemma AfterOneMore(cfg: Config, callers: nat, run: seq<Action>, a: Action)
    ensures After(cfg, callers, run + [a]) == Next(cfg, After(cfg, callers, run), a)
  {
    assert (run + [a])[..|run|] == run;
  }

  /** Only caller i has acted (others may have been notified). */
  ghost predicate OnlyMoved(s: State, t: State, i: nat) {
    |t.pcs| == |s.pcs| && forall j :: 0 <= j < |s.pcs| && j != i ==>
      t.pcs[j] == s.pcs[j] || (s.pcs[j].Parked? && t.pcs[j].Wanting?)
  }

  /** The probe of the popped connection fails: it is dropped and closed. */
  lemma DropRound(cfg: Config, s: State, i: nat) returns (acts: seq<Action>)
    requires Exclusive(s) && i < |s.pcs| && s.pcs[i].Wanting? && s.pool.available != []
    ensures CloseAll !in acts
    ensures var c := s.pool.available[|s.pool.available| - 1]; var t := Exec(cfg, s, acts);
      && t.pool == Discard(Take(s.pool, cfg.poolMax).0, c) && i < |t.pcs| && t.pcs[i].Wanting?
      && t.closed == s.closed + {c} && t.nextId == s.nextId && c < s.nextId
      && Exclusive(t) && OnlyMoved(s, t, i)
  {
    TakeEffect(s.pool, cfg.poolMax);
    acts := [Enter(i, false), Probe(i, false), Drop(i), Close(i)];
    var s1 := Next(cfg, s, acts[0]);
    ExclusiveStep(cfg, s, acts[0]);
    var s2 := Next(cfg, s1, acts[1]);
    ExclusiveStep(cfg, s1, acts[1]);
    var s3 := Next(cfg, s2, acts[2]);
    ExclusiveStep(cfg, s2, acts[2]);
    var s4 := Next(cfg, s3, acts[3]);
    ExclusiveStep(cfg, s3, acts[3]);
    Exec4(cfg, s, acts);
  }

  lemma Exec4(cfg: Config, s: State, acts: seq<Action>)
    requires |acts| == 4
    ensures Exec(cfg, s, acts) ==
      Next(cfg, Next(cfg, Next(cfg, Next(cfg, s, acts[0]), acts[1]), acts[2]), acts[3])
  {
    assert acts == [acts[0]] + [acts[1]] + [acts[2]] + [acts[3]];
    ExecAppend(cfg, s, [acts[0]] + [acts[1]] + [acts[2]], [acts[3]]);
    ExecAppend(cfg, s, [acts[0]] + [acts[1]], [acts[2]]);
    ExecAppend(cfg, s, [acts[0]], [acts[1]]);
  }

  /** Where acquire leaves the caller. */
  function Acquires(r: Acquired): Pc {
    if r.Granted? then Holding(r.conn) else Idle
  }

  ghost predicate AcquireReached(cfg: Config, s: State, t: State, i: nat, usable: set<Conn>, connects: bool) {
    var (p, r) := AcquireAlone(s.pool, usable, s.nextId, connects, cfg.poolMax);
    && i < |t.pcs| && t.pool == p && t.pcs[i] == Acquires(r)
    && t.nextId == (if r.Granted? && r.conn == s.nextId then s.nextId + 1 else s.nextId)
    && (r.Granted? ==> r.conn !in t.closed)
    && Exclusive(t) && OnlyMoved(s, t, i)
  }

  /** The acquire loop of the class, as protocol steps of one caller. */
  lemma {:induction false} AcquireIsARun(cfg: Config, s: State, i: nat, usable: set<Conn>, connects: bool)
    returns (acts: seq<Action>)
    requires Exclusive(s) && i < |s.pcs| && s.pcs[i].Wanting?
    requires usable !! s.closed && s.nextId !in s.closed
    ensures CloseAll !in acts
    ensures AcquireReached(cfg, s, Exec(cfg, s, acts), i, usable, connects)
    decreases |s.pool.available|
  {
    var n := |s.pool.available|;
    if n > 0 && s.pool.available[n - 1] !in usable {
      var first := DropRound(cfg, s, i);
      var t := Exec(cfg, s, first);
      DropUnusable(s.pool, usable, s.nextId, connects, cfg.poolMax);
      var rest := AcquireIsARun(cfg, t, i, usable, connects);
      ExecAppend(cfg, s, first, rest);
      acts := first + rest;
    } else if n > 0 {
      acts := ReuseRun(cfg, s, i, usable, connects);
    } else {
      acts := CreateRun(cfg, s, i, usable, connects);
    }
  }

  lemma ReuseRun(cfg: Config, s: State, i: nat, usable: set<Conn>, connects: bool) returns (acts: seq<Action>)
    requires Exclusive(s) && i < |s.pcs| && s.pcs[i].Wanting? && usable !! s.closed
    requires s.pool.available != [] && s.pool.available[|s.pool.available| - 1] in usable
    ensures CloseAll !in acts
    ensures AcquireReached(cfg, s, Exec(cfg, s, acts), i, usable, connects)
  {
    TakeEffect(s.pool, cfg.poolMax);
    acts := [Enter(i, false)] + [Probe(i, true)];
    ExecAppend(cfg, s, [Enter(i, false)], [Probe(i, true)]);
    var s1 := Next(cfg, s, Enter(i, false));
    ExclusiveStep(cfg, s, Enter(i, false));
    ExclusiveStep(cfg, s1, Probe(i, true));
    assert s.pool.available[..|s.pool.available|] == s.pool.available;
    assert Exec(cfg, s, acts) == Next(cfg, s1, Probe(i, true));
  }

  lemma CreateRun(cfg: Config, s: State, i: nat, usable: set<Conn>, connects: bool) returns (acts: seq<Action>)
    requires Exclusive(s) && i < |s.pcs| && s.pcs[i].Wanting? && s.nextId !in s.closed
    requires s.pool.available == []
    ensures CloseAll !in acts
    ensures AcquireReached(cfg, s, Exec(cfg, s, acts), i, usable, connects)
  {
    LastPass(s.pool, usable, s.nextId, connects, cfg.poolMax);
    if |s.pool.inUse| >= Cap(cfg.poolMax) {
      acts := [Enter(i, true)];
      ExclusiveStep(cfg, s, Enter(i, true));
      assert Exec(cfg, s, acts) == s.(pcs := s.pcs[i := Idle]);
    } else if !connects {
      acts := [Enter(i, false)] + [Connect(i, false)];
      var s1 := TryRun(cfg, s, i, false);
      assert Exec(cfg, s, acts) == s.(pcs := s.pcs[i := Idle]);
    } else {
      acts := MadeRun(cfg, s, i);
    }
  }

  /** Finding room, the caller tries to connect. */
  lemma TryRun(cfg: Config, s: State, i: nat, connects: bool) returns (t: State)
    requires Exclusive(s) && i < |s.pcs| && s.pcs[i].Wanting?
    requires s.pool.available == [] && |s.pool.inUse| < Cap(cfg.poolMax)
    ensures t == Exec(cfg, s, [Enter(i, false)] + [Connect(i, connects)]) && Exclusive(t)
    ensures t == if connects then s.(pcs := s.pcs[i := Registering(s.nextId)], nextId := s.nextId + 1)
                 else s.(pcs := s.pcs[i := Idle])
  {
    var s1 := Next(cfg, s, Enter(i, false));
    assert s1 == s.(pcs := s.pcs[i := Connecting]);
    ExclusiveStep(cfg, s, Enter(i, false));
    t := Next(cfg, s1, Connect(i, connects));
    ExclusiveStep(cfg, s1, Connect(i, connects));
    ExecAppend(cfg, s, [Enter(i, false)], [Connect(i, connects)]);
    assert s.pcs[i := Connecting][i := t.pcs[i]] == s.pcs[i := t.pcs[i]];
  }

  lemma MadeRun(cfg: Config, s: State, i: nat) returns (acts: seq<Action>)
    requires Exclusive(s) && i < |s.pcs| && s.pcs[i].Wanting?
    requires s.pool.available == [] && |s.pool.inUse| < Cap(cfg.poolMax)
    ensures CloseAll !in acts
    ensures var t := Exec(cfg, s, acts);
      && t == s.(pool := Register(s.pool, s.nextId), pcs := s.pcs[i := Holding(s.nextId)], nextId := s.nextId + 1)
      && Exclusive(t)
  {
    var trying := [Enter(i, false)] + [Connect(i, true)];
    var s2 := TryRun(cfg, s, i, true);
    ExclusiveStep(cfg, s2, Enlist(i));
    ExecAppend(cfg, s, trying, [Enlist(i)]);
    acts := trying + [Enlist(i)];
    assert Exec(cfg, s, acts) == Next(cfg, s2, Enlist(i));
    assert s2.pcs[i := Holding(s.nextId)] == s.pcs[i := Holding(s.nextId)];
  }

  /** The caller's work, and the probe after it if it did not raise. */
  lemma WorkIsARun(cfg: Config, s: State, i: nat, a: Attempt) returns (acts: seq<Action>)
    requires i < |s.pcs| && s.pcs[i].Holding? && s.pcs[i].conn !in s.closed
    ensures CloseAll !in acts
    ensures var t := Exec(cfg, s, acts);
      && i < |t.pcs| && t.pcs[i] == Returning(s.pcs[i].conn, !a.raises && a.stillUsable)
      && t.pool == s.pool && t.closed == s.closed && t.nextId == s.nextId && OnlyMoved(s, t, i)
  {
    acts := [Finish(i, a.raises)];
    var s1 := Next(cfg, s, Finish(i, a.raises));
    assert Exec(cfg, s, acts) == s1;
    if !a.raises {
      ExecAppend(cfg, s, acts, [Check(i, a.stillUsable)]);
      acts := acts + [Check(i, a.stillUsable)];
      assert Exec(cfg, s, acts) == Next(cfg, s1, Check(i, a.stillUsable));
    }
  }

  /** The release block, and closing what it did not keep. */
  lemma ReturnIsARun(cfg: Config, s: State, i: nat, autocommitSet: bool) returns (acts: seq<Action>)
    requires i < |s.pcs| && s.pcs[i].Returning? && s.pcs[i].conn !in s.closed
    ensures CloseAll !in acts
    ensures var t := Exec(cfg, s, acts);
      && t.pool == Return(s.pool, s.pcs[i].conn, s.pcs[i].keep && autocommitSet, cfg.poolMax)
      && i < |t.pcs| && t.pcs[i].Idle? && t.nextId == s.nextId && OnlyMoved(s, t, i)
  {
    acts := [Release(i, autocommitSet)];
    var s1 := Next(cfg, s, Release(i, autocommitSet));
    assert Exec(cfg, s, acts) == s1;
    if s1.pcs[i].Closing? {
      ExecAppend(cfg, s, acts, [Close(i)]);
      acts := acts + [Close(i)];
      assert Exec(cfg, s, acts) == Next(cfg, s1, Close(i));
    }
  }

  lemma ReleaseIsARun(cfg: Config, s: State, i: nat, a: Attempt) returns (acts: seq<Action>)
    requires i < |s.pcs| && s.pcs[i].Holding? && s.pcs[i].conn !in s.closed
    ensures CloseAll !in acts
    ensures var t := Exec(cfg, s, acts);
      && t.pool == Return(s.pool, s.pcs[i].conn, !a.raises && a.stillUsable && a.autocommitSet, cfg.poolMax)
      && i < |t.pcs| && t.pcs[i].Idle? && t.nextId == s.nextId && OnlyMoved(s, t, i)
  {
    var working := WorkIsARun(cfg, s, i, a);
    var returning := ReturnIsARun(cfg, Exec(cfg, s, working), i, a.autocommitSet);
    ExecAppend(cfg, s, working, returning);
    acts := working + returning;
  }

  /** From every state the protocol reaches, one caller alone can make exactly the attempt
      that the sequential class makes: same pool, same fresh identities, caller idle. */
  lemma ReadOnceIsARun(cfg: Config, callers: nat, run: seq<Action>, i: nat, a: Attempt) returns (more: seq<Action>)
    requires i < |After(cfg, callers, run).pcs| && After(cfg, callers, run).pcs[i].Idle?
    requires a.usable !! After(cfg, callers, run).closed
    ensures CloseAll !in more
    ensures var s, t := After(cfg, callers, run), After(cfg, callers, run + more);
      var r := ReadOnce(s.pool, s.nextId, true, a, cfg.poolMax);
      t.pool == r.pool && t.nextId == r.nextId && i < |t.pcs| && t.pcs[i].Idle? && OnlyMoved(s, t, i)
  {
    var s := After(cfg, callers, run);
    InvHolds(cfg, callers, run);
    var s0 := Next(cfg, s, Request(i));
    ExclusiveStep(cfg, s, Request(i));
    var acquiring := AcquireIsARun(cfg, s0, i, a.usable, a.connects);
    var s1 := Exec(cfg, s0, acquiring);
    assert Exec(cfg, s, [Request(i)]) == s0;
    ExecAppend(cfg, s, [Request(i)], acquiring);
    more := [Request(i)] + acquiring;
    if s1.pcs[i].Holding? {
      var releasing := ReleaseIsARun(cfg, s1, i, a);
      ExecAppend(cfg, s, more, releasing);
      more := more + releasing;
    }
    ExecIsAfter(cfg, callers, run, more);
  }

  // ------------------------------------------------------------ both attempts

  /** What has been closed since is neither idle nor carried by anybody. */
  ghost predicate Gone(before: set<Conn>, s: State) {
    forall c :: c in s.closed && c !in before ==> GoneConn(s, c)
  }

  ghost predicate GoneConn(s: State, c: Conn) {
    && c < s.nextId && c !in s.pool.available
    && forall i :: 0 <= i < |s.pcs| && Carries(s.pcs[i]) ==> s.pcs[i].conn != c
  }

  lemma GoneStays(cfg: Config, s: State, a: Action, c: Conn)
    requires Exclusive(s) && Enabled(cfg, s, a) && GoneConn(s, c)
    ensures GoneConn(Apply(cfg, s, a), c)
  {
    var t := Apply(cfg, s, a);
    PoolStaysValid(cfg, s, a);
    forall i | 0 <= i < |t.pcs| && Carries(t.pcs[i]) ensures t.pcs[i].conn != c {
      Provenance(cfg, s, a, i);
    }
  }

  lemma ClosedIsGone(cfg: Config, s: State, i: nat)
    requires Exclusive(s) && i < |s.pcs| && s.pcs[i].Closing?
    ensures GoneConn(Apply(cfg, s, Close(i)), s.pcs[i].conn)
  {
  }

  lemma {:induction false} RunLeavesGone(cfg: Config, s: State, acts: seq<Action>, before: set<Conn>)
    requires Exclusive(s) && Gone(before, s) && CloseAll !in acts
    ensures Gone(before, Exec(cfg, s, acts))
    decreases |acts|
  {
    if acts != [] {
      var a, t := acts[0], Next(cfg, s, acts[0]);
      assert a != CloseAll;
      if Enabled(cfg, s, a) {
        ExclusiveStep(cfg, s, a);
        forall c | c in t.closed && c !in before ensures GoneConn(t, c) {
          if c in s.closed {
            GoneStays(cfg, s, a, c);
          } else {
            ClosedIsGone(cfg, s, a.who);
          }
        }
      }
      RunLeavesGone(cfg, t, acts[1..], before);
    }
  }

  lemma {:induction false} SameUsable(idle: seq<Conn>, usable: set<Conn>, others: set<Conn>)
    requires forall c :: c in idle ==> (c in usable <==> c in others)
    ensures UsableLength(idle, usable) == UsableLength(idle, others)
  {
    if idle != [] {
      assert idle[|idle| - 1] in idle;
      SameUsable(idle[..|idle| - 1], usable, others);
    }
  }

  /** From every state the protocol reaches, one caller alone can make exactly the read, with
      its retry, that the sequential class makes. */
  lemma ReadIsARun(cfg: Config, callers: nat, run: seq<Action>, i: nat, first: Attempt, second: Attempt)
    returns (more: seq<Action>)
    requires i < |After(cfg, callers, run).pcs| && After(cfg, callers, run).pcs[i].Idle?
    requires first.usable !! After(cfg, callers, run).closed && second.usable !! After(cfg, callers, run).closed
    ensures CloseAll !in more
    ensures var s, t := After(cfg, callers, run), After(cfg, callers, run + more);
      var r := Read(s.pool, s.nextId, true, first, second, cfg.poolMax);
      t.pool == r.pool && t.nextId == r.nextId && i < |t.pcs| && t.pcs[i].Idle? && OnlyMoved(s, t, i)
  {
    var s := After(cfg, callers, run);
    more := ReadOnceIsARun(cfg, callers, run, i, first);
    var r := ReadOnce(s.pool, s.nextId, true, first, cfg.poolMax);
    if !r.outcome.Rows? && first.transient {
      var again := RetryIsARun(cfg, callers, run, more, i, second);
      MovedTwice(s, After(cfg, callers, run + more), After(cfg, callers, run + (more + again)), i);
      more := more + again;
    }
  }

  lemma MovedTwice(s: State, t: State, u: State, i: nat)
    requires OnlyMoved(s, t, i) && OnlyMoved(t, u, i)
    ensures OnlyMoved(s, u, i)
  {
  }

  lemma SameAttempt(p: Pool, nextId: Conn, a: Attempt, usable: set<Conn>, poolMax: int)
    requires forall c :: c in p.available ==> (c in a.usable <==> c in usable)
    ensures ReadOnce(p, nextId, true, a.(usable := usable), poolMax) == ReadOnce(p, nextId, true, a, poolMax)
  {
    SameAcquire(p, nextId, a, usable, poolMax);
  }

  lemma SameAcquire(p: Pool, nextId: Conn, a: Attempt, usable: set<Conn>, poolMax: int)
    requires forall c :: c in p.available ==> (c in a.usable <==> c in usable)
    ensures AcquireAlone(p, usable, nextId, a.connects, poolMax)
         == AcquireAlone(p, a.usable, nextId, a.connects, poolMax)
  {
    SameUsable(p.available, a.usable, usable);
  }

  /** The second attempt, after what the first has done. */
  lemma RetryIsARun(cfg: Config, callers: nat, run: seq<Action>, more: seq<Action>, i: nat, second: Attempt)
    returns (again: seq<Action>)
    requires CloseAll !in more && second.usable !! After(cfg, callers, run).closed
    requires var t := After(cfg, callers, run + more); i < |t.pcs| && t.pcs[i].Idle?
    ensures CloseAll !in again
    ensures var t, u := After(cfg, callers, run + more), After(cfg, callers, run + (more + again));
      var r := ReadOnce(t.pool, t.nextId, true, second, cfg.poolMax);
      u.pool == r.pool && u.nextId == r.nextId && i < |u.pcs| && u.pcs[i].Idle? && OnlyMoved(t, u, i)
  {
    var t := After(cfg, callers, run + more);
    var usable := set c | c in second.usable && c in t.pool.available;
    assert usable !! t.closed by { IdleStayOpen(cfg, callers, run, more); }
    again := ReadOnceIsARun(cfg, callers, run + more, i, second.(usable := usable));
    SameAttempt(t.pool, t.nextId, second, usable, cfg.poolMax);
    Associate(run, more, again);
  }

  /** What is idle now and was open before is open. */
  lemma IdleStayOpen(cfg: Config, callers: nat, run: seq<Action>, more: seq<Action>)
    requires CloseAll !in more
    ensures var s, t := After(cfg, callers, run), After(cfg, callers, run + more);
      forall c :: c in t.pool.available && c in t.closed ==> c in s.closed
  {
    var s, t := After(cfg, callers, run), After(cfg, callers, run + more);
    InvHolds(cfg, callers, run);
    ExecIsAfter(cfg, callers, run, more);
    RunLeavesGone(cfg, s, more, s.closed);
    forall c | c in t.pool.available && c in t.closed ensures c in s.closed {
      assert c !in s.closed ==> GoneConn(t, c);
    }
  }
}
