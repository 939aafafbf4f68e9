/** Nobody is stuck: from every state the protocol reaches, every caller that waits for a
    connection can still be served, without a shutdown. */
module PoolProgress {
  import opened Collections
  import opened Pool
  import opened PoolProtocol
  import opened PoolRefinement

  lemma {:induction false} ExecInv(cfg: Config, s: State, acts: seq<Action>)
    requires Inv(cfg, s)
    ensures Inv(cfg, Exec(cfg, s, acts)) && |Exec(cfg, s, acts).pcs| == |s.pcs|
    decreases |acts|
  {
    if acts != [] {
      InvStep(cfg, s, acts[0]);
      ExecInv(cfg, Next(cfg, s, acts[0]), acts[1..]);
    }
  }

  /** An owner gets ready to give its connection up: it fails its probe or its work. */
  lemma GiveUp(cfg: Config, s: State, j: nat) returns (acts: seq<Action>)
    requires j in Owners(s)
    ensures CloseAll !in acts
    ensures var t := Exec(cfg, s, acts);
      && t.pool == s.pool && |t.pcs| == |s.pcs| && (forall i :: 0 <= i < |s.pcs| && i != j ==> t.pcs[i] == s.pcs[i])
      && (t.pcs[j].Discarding? || t.pcs[j].Returning?) && t.pcs[j].conn == s.pcs[j].conn
  {
    acts := match s.pcs[j]
      case Probing(_) => [Probe(j, false)]
      case Holding(_) => [Finish(j, true)]
      case Checking(_) => [Check(j, false)]
      case _ => [];
    if |acts| == 1 {
      assert Exec(cfg, s, acts) == Next(cfg, s, acts[0]);
    }
  }

  /** Nothing is idle, and caller i is about to try. */
  ghost predicate Trying(s: State, i: nat) {
    s.pool.available == [] && i < |s.pcs| && s.pcs[i].Wanting?
  }

  lemma GiveBack(cfg: Config, s: State, i: nat, j: nat) returns (a: Action)
    requires Exclusive(s) && Trying(s, i) && j < |s.pcs| && j != i
    requires (s.pcs[j].Discarding? || s.pcs[j].Returning?) && s.pcs[j].conn in s.pool.inUse
    ensures a != CloseAll
    ensures var t := Next(cfg, s, a); Trying(t, i) && |t.pool.inUse| == |s.pool.inUse| - 1
  {
    a := if s.pcs[j].Discarding? then Drop(j) else Release(j, false);
    RemoveFirstEffect(s.pool.inUse, s.pcs[j].conn);
  }

  /** One owner frees its place in the pool. */
  lemma FreeOne(cfg: Config, s: State, i: nat, j: nat) returns (acts: seq<Action>)
    requires Inv(cfg, s) && Trying(s, i) && j in Owners(s)
    ensures CloseAll !in acts
    ensures var t := Exec(cfg, s, acts); Inv(cfg, t) && Trying(t, i) && |t.pool.inUse| == |s.pool.inUse| - 1
  {
    var giving := GiveUp(cfg, s, j);
    ExecInv(cfg, s, giving);
    var a := GiveBack(cfg, Exec(cfg, s, giving), i, j);
    ExecAppend(cfg, s, giving, [a]);
    acts := giving + [a];
    ExecInv(cfg, s, acts);
  }

  /** The others make room for caller i. */
  lemma {:induction false} MakeRoom(cfg: Config, s: State, i: nat) returns (acts: seq<Action>)
    requires Inv(cfg, s) && Trying(s, i)
    ensures CloseAll !in acts
    ensures var t := Exec(cfg, s, acts); Inv(cfg, t) && Trying(t, i) && |t.pool.inUse| < Cap(cfg.poolMax)
    decreases |s.pool.inUse|
  {
    acts := [];
    if |s.pool.inUse| >= Cap(cfg.poolMax) {
      assert Owners(s) != {};
      var j :| j in Owners(s);
      var first := FreeOne(cfg, s, i, j);
      var rest := MakeRoom(cfg, Exec(cfg, s, first), i);
      ExecAppend(cfg, s, first, rest);
      acts := first + rest;
    }
  }

  /** Caller i, about to try, gets an idle connection that is not closed, or a new one. */
  lemma {:induction false} Serve(cfg: Config, s: State, i: nat) returns (acts: seq<Action>)
    requires Inv(cfg, s) && i < |s.pcs| && s.pcs[i].Wanting?
    ensures CloseAll !in acts
    ensures var t := Exec(cfg, s, acts); i < |t.pcs| && t.pcs[i].Holding?
    decreases |s.pool.available|
  {
    var n := |s.pool.available|;
    if n == 0 {
      var making := MakeRoom(cfg, s, i);
      var creating := MadeRun(cfg, Exec(cfg, s, making), i);
      ExecAppend(cfg, s, making, creating);
      acts := making + creating;
    } else if s.pool.available[n - 1] in s.closed {
      var dropping := DropRound(cfg, s, i);
      ExecInv(cfg, s, dropping);
      var rest := Serve(cfg, Exec(cfg, s, dropping), i);
      ExecAppend(cfg, s, dropping, rest);
      acts := dropping + rest;
    } else {
      acts := ReuseRun(cfg, s, i, {s.pool.available[n - 1]}, true);
    }
  }

  /** A caller outside the pool, or waiting for it. */
  ghost predicate Unserved(pc: Pc) {
    pc.Idle? || pc.Wanting? || pc.Parked?
  }

  /** From every reachable state some continuation, without a shutdown, serves the caller. */
  lemma EveryCallerCanBeServed(cfg: Config, callers: nat, run: seq<Action>, i: nat) returns (more: seq<Action>)
    requires i < |After(cfg, callers, run).pcs| && Unserved(After(cfg, callers, run).pcs[i])
    ensures CloseAll !in more
    ensures var t := After(cfg, callers, run + more); i < |t.pcs| && t.pcs[i].Holding?
  {
    var s := After(cfg, callers, run);
    InvHolds(cfg, callers, run);
    var asking := if s.pcs[i].Idle? then [Request(i)] else if s.pcs[i].Parked? then [WaitOver(i)] else [];
    if |asking| == 1 {
      assert Exec(cfg, s, asking) == Next(cfg, s, asking[0]);
    }
    ExecInv(cfg, s, asking);
    var serving := Serve(cfg, Exec(cfg, s, asking), i);
    ExecAppend(cfg, s, asking, serving);
    more := asking + serving;
    ExecIsAfter(cfg, callers, run, more);
  }
}
