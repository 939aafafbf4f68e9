/** Physical connections: none leaks, and only a shutdown closes one under its holder. */
module PoolLeaks {
  import opened Pool
  import opened PoolProtocol

  ghost predicate Accounted(s: State, c: Conn) {
    c in s.pool.available || c in s.closed || exists i :: 0 <= i < |s.pcs| && Carries(s.pcs[i]) && s.pcs[i].conn == c
  }

  /** A connection that a caller carries goes on being carried, or is idle or closed. */
  lemma CarriedStep(cfg: Config, s: State, a: Action, i: nat)
    requires Enabled(cfg, s, a) && i < |s.pcs| && Carries(s.pcs[i])
    ensures Accounted(Apply(cfg, s, a), s.pcs[i].conn)
  {
    var t := Apply(cfg, s, a);
    assert (Carries(t.pcs[i]) && t.pcs[i].conn == s.pcs[i].conn) || a.Release? || a.Close?;
  }

  lemma AccountedStep(cfg: Config, s: State, a: Action, c: Conn)
    requires Enabled(cfg, s, a) && (Accounted(s, c) || c == s.nextId < Apply(cfg, s, a).nextId)
    ensures Accounted(Apply(cfg, s, a), c)
  {
    var t := Apply(cfg, s, a);
    if c in s.pool.available {
      var n := |s.pool.available| - 1;
      if a.Enter? && c == s.pool.available[n] {
        assert t.pcs[a.who] == Probing(c);
      } else if a.Enter? {
        assert s.pool.available == s.pool.available[..n] + [s.pool.available[n]];
      }
    } else if i :| 0 <= i < |s.pcs| && Carries(s.pcs[i]) && s.pcs[i].conn == c {
      CarriedStep(cfg, s, a, i);
    } else if c !in s.closed {
      assert t.pcs[a.who] == Registering(c);
    }
  }

  /** No physical connection leaks: each one ever made is idle, carried by a caller who
      will release or close it, or closed. */
  lemma {:induction false} NoLeak(cfg: Config, callers: nat, run: seq<Action>, c: Conn)
    requires c < After(cfg, callers, run).nextId
    ensures Accounted(After(cfg, callers, run), c)
  {
    if run != [] {
      var before, a := run[..|run| - 1], run[|run| - 1];
      var s := After(cfg, callers, before);
      if c < s.nextId {
        NoLeak(cfg, callers, before, c);
      }
      if Enabled(cfg, s, a) {
        AccountedStep(cfg, s, a, c);
      }
    }
  }

  /** No listed connection is closed, nor one about to be listed. */
  ghost predicate ListedAreOpen(s: State) {
    && (forall c :: c in s.pool.available ==> c !in s.closed)
    && (forall i :: i in Owners(s) ==> s.pcs[i].conn !in s.closed)
    && (forall i :: 0 <= i < |s.pcs| && s.pcs[i].Registering? ==> s.pcs[i].conn !in s.closed)
  }

  lemma OpenStep(cfg: Config, s: State, a: Action)
    requires cfg.rejectsClosed && Exclusive(s) && OrphansAreClosed(cfg, s) && ListedAreOpen(s) && Enabled(cfg, s, a)
    ensures ListedAreOpen(Apply(cfg, s, a))
  {
    var t := Apply(cfg, s, a);
    ClosedStayOut(cfg, s, a);
    forall i | i in Owners(t) ensures t.pcs[i].conn !in t.closed {
      OwnerStaysOpen(cfg, s, a, i);
    }
  }

  lemma OwnerStaysOpen(cfg: Config, s: State, a: Action, i: nat)
    requires Exclusive(s) && ListedAreOpen(s) && Enabled(cfg, s, a) && i in Owners(Apply(cfg, s, a))
    ensures var t := Apply(cfg, s, a); t.pcs[i].conn !in t.closed
  {
    Provenance(cfg, s, a, i);
    if i != a.who {
      OthersKeep(cfg, s, a, i);
    } else if !a.Enter? && !a.Enlist? {
      ActorMovesStep(cfg, s, a);
      assert i in Owners(s);
    }
  }

  /** With a driver that refuses autocommit on a closed connection, a connection is closed
      under its holder exactly when close_all_pools dropped it from the pool. */
  lemma {:induction false} ClosedIffDropped(cfg: Config, callers: nat, run: seq<Action>, i: nat)
    requires cfg.rejectsClosed
    ensures var s := After(cfg, callers, run);
      ListedAreOpen(s) && (i in Holders(s) ==> (s.pcs[i].conn in s.closed <==> i in Orphans(s)))
  {
    InvHolds(cfg, callers, run);
    if run != [] {
      var before, a := run[..|run| - 1], run[|run| - 1];
      ClosedIffDropped(cfg, callers, before, i);
      InvHolds(cfg, callers, before);
      if Enabled(cfg, After(cfg, callers, before), a) {
        OpenStep(cfg, After(cfg, callers, before), a);
      }
    }
  }
}
