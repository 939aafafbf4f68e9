/** How many connections the pool lists: the overshoot of overlapping creations, and the
    number of callers, bound it in every run. */
module PoolSize {
  import opened Collections
  import opened Pool
  import opened PoolProtocol

  /** At most `n` callers were ever in the creation window at once. */
  ghost predicate WindowWithin(cfg: Config, callers: nat, run: seq<Action>, n: nat) {
    |Creators(After(cfg, callers, run))| <= n &&
    (run != [] ==> WindowWithin(cfg, callers, run[..|run| - 1], n))
  }

  ghost predicate SizeWithin(cfg: Config, s: State, n: nat) {
    s.pool.Size() + |Creators(s)| <= Cap(cfg.poolMax) - 1 + n + s.readmitted
  }

  lemma CreatorsStep(cfg: Config, s: State, a: Action)
    requires Enabled(cfg, s, a)
    ensures a.CloseAll? ==> Creators(Apply(cfg, s, a)) == Creators(s)
    ensures !a.CloseAll? ==> Creators(Apply(cfg, s, a)) - {a.who} == Creators(s) - {a.who}
  {
  }

  /** Idle connections, connections with a holder and connections being created, together. */
  ghost function Spread(s: State): nat {
    |s.pool.available| + |Holders(s)| + |Creators(s)|
  }

  lemma HoldersAndCreators(s: State)
    ensures |Holders(s)| + |Creators(s)| <= |s.pcs|
  {
    assert Holders(s) !! Creators(s);
    SubsetSize(Holders(s) + Creators(s), Interval(0, |s.pcs|));
  }

  lemma SpreadStep(cfg: Config, s: State, a: Action)
    requires Exclusive(s) && Enabled(cfg, s, a) && Spread(s) <= |s.pcs|
    ensures Spread(Apply(cfg, s, a)) <= |s.pcs|
  {
    var t := Apply(cfg, s, a);
    HoldersAndCreators(t);
    if !a.CloseAll? {
      CreatorsStep(cfg, s, a);
      SizeFromRest(Creators(s), Creators(t), a.who);
      CountStep(cfg, s, a);
      SizeFromRest(Holders(s), Holders(t), a.who);
    }
  }

  /** The pool never lists more connections than there are callers: whoever creates found
      nothing idle, and whoever returns one stops using it. A shutdown and the releases that
      it overtook are no exception, whatever the driver does. */
  lemma {:induction false} CallersBound(cfg: Config, callers: nat, run: seq<Action>)
    ensures Spread(After(cfg, callers, run)) <= callers
    ensures var s := After(cfg, callers, run); s.pool.Size() + |Orphans(s)| + |Creators(s)| <= callers
  {
    InvHolds(cfg, callers, run);
    var s := After(cfg, callers, run);
    if run == [] {
      assert Holders(s) == {} && Creators(s) == {};
    } else {
      var before, a := run[..|run| - 1], run[|run| - 1];
      CallersBound(cfg, callers, before);
      InvHolds(cfg, callers, before);
      if Enabled(cfg, After(cfg, callers, before), a) {
        SpreadStep(cfg, After(cfg, callers, before), a);
      }
    }
    HoldersSplit(s);
  }

  lemma SizeStep(cfg: Config, s: State, a: Action, n: nat)
    requires Exclusive(s) && SizeWithin(cfg, s, n) && Enabled(cfg, s, a)
    requires |Creators(Apply(cfg, s, a))| <= n
    ensures SizeWithin(cfg, Apply(cfg, s, a), n)
  {
    var t := Apply(cfg, s, a);
    CreatorsStep(cfg, s, a);
    if !a.CloseAll? {
      SizeFromRest(Creators(s), Creators(t), a.who);
      if a.Drop? || a.Release? {
        RemoveFirstEffect(s.pool.inUse, s.pcs[a.who].conn);
      }
    }
  }

  /** The pool never exceeds its cap by more than the creations that overlapped, plus the
      connections re-admitted after a shutdown. */
  lemma {:induction false} SizeBound(cfg: Config, callers: nat, run: seq<Action>, n: nat)
    requires WindowWithin(cfg, callers, run, n)
    ensures SizeWithin(cfg, After(cfg, callers, run), n)
    ensures cfg.rejectsClosed ==>
      var s := After(cfg, callers, run); s.pool.Size() + |Creators(s)| <= Cap(cfg.poolMax) - 1 + n
  {
    InvHolds(cfg, callers, run);
    if run == [] {
      assert Creators(Init(callers)) == {};
    } else {
      var before, a := run[..|run| - 1], run[|run| - 1];
      SizeBound(cfg, callers, before, n);
      InvHolds(cfg, callers, before);
      if Enabled(cfg, After(cfg, callers, before), a) {
        SizeStep(cfg, After(cfg, callers, before), a, n);
      }
    }
  }
}
