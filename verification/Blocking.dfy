/** Blocking chains between sessions: the indentation depth of a blocked session on the
    dashboard page and the head blockers of the dashboard app. */
module Blocking {
  import opened Collections
  import opened Paths
  import opened Orders

  const DEPTH_CAP := 17

  /** A value of a result row as `_coerce_optional_int` sees it. */
  datatype Cell = Missing | Flag(b: bool) | Number(n: int) | Text(parsed: Parse) | Other
  datatype Parse = Parsed(n: int) | NotANumber

  datatype ChainRow = ChainRow(session: Cell, blocker: Cell)

  function CoerceOptionalInt(c: Cell): int {
    match c
    case Number(n) => n
    case Text(Parsed(n)) => n
    case _ => -1
  }

  // ------------------------------------------------------------ who blocks whom

  datatype Id = NoId | SessionId(n: int)

  /** Of the rows that name `session` and a blocker, both positive, the last one counts. */
  ghost function BlockerOf(rows: seq<ChainRow>, session: int): Id {
    if rows == [] then NoId
    else
      var row := rows[|rows| - 1];
      if session > 0 && CoerceOptionalInt(row.session) == session && CoerceOptionalInt(row.blocker) > 0
      then SessionId(CoerceOptionalInt(row.blocker))
      else BlockerOf(rows[..|rows| - 1], session)
  }

  method BlockingBySession(rows: seq<ChainRow>) returns (blockers: map<int, int>)
    ensures forall s :: BlockerOf(rows, s) == if s in blockers then SessionId(blockers[s]) else NoId
  {
    blockers := map[];
    for n := 0 to |rows|
      invariant forall s :: BlockerOf(rows[..n], s) == if s in blockers then SessionId(blockers[s]) else NoId
    {
      assert rows[..n + 1][..n] == rows[..n];
      var sid, bsid := CoerceOptionalInt(rows[n].session), CoerceOptionalInt(rows[n].blocker);
      if sid < 0 || bsid < 0 {
        continue;
      }
      if sid > 0 && bsid > 0 {
        blockers := blockers[sid := bsid];
      }
    }
    assert rows[..|rows|] == rows;
  }

  /** The cell holds this number, as itself or as a text. */
  ghost predicate Says(c: Cell, n: int) {
    c == Number(n) || c == Text(Parsed(n))
  }

  /** The row names the session and a blocker, both positive. */
  ghost predicate Blocks(row: ChainRow, session: int, blocker: int) {
    session > 0 && blocker > 0 && Says(row.session, session) && Says(row.blocker, blocker)
  }

  /** Of the rows that name a session and a blocker, both positive, the last one counts. */
  lemma {:induction false} LastRowCounts(rows: seq<ChainRow>, session: int, blocker: int)
    ensures BlockerOf(rows, session) == SessionId(blocker) <==>
      exists i :: 0 <= i < |rows| && Blocks(rows[i], session, blocker)
        && forall j, other :: i < j < |rows| ==> !Blocks(rows[j], session, other)
  {
    if rows != [] {
      var front, row := rows[..|rows| - 1], rows[|rows| - 1];
      LastRowCounts(front, session, blocker);
      assert forall i :: 0 <= i < |front| ==> rows[i] == front[i];
      if other :| Blocks(row, session, other) {
        assert BlockerOf(rows, session) == SessionId(other);
        if other == blocker {
          assert Blocks(rows[|rows| - 1], session, blocker);
        }
      } else {
        assert !Blocks(row, session, CoerceOptionalInt(row.blocker));
        assert BlockerOf(rows, session) == BlockerOf(front, session);
      }
    }
  }

  // ------------------------------------------------------------ depth

  /** The chain from `s`, staying put once it reaches an unblocked session. */
  function Hop(blockers: map<int, int>, s: int, n: nat): int {
    if n == 0 then s
    else var t := Hop(blockers, s, n - 1); if t in blockers then blockers[t] else t
  }

  ghost function Visited(blockers: map<int, int>, s: int, n: nat): set<int> {
    set i | 0 <= i < n :: Hop(blockers, s, i)
  }

  /** `k` sessions are passed, all blocked and all different, before the chain reaches an
      unblocked session or one it has passed. */
  ghost predicate Passes(blockers: map<int, int>, s: int, k: nat) {
    && (forall i :: 0 <= i < k ==> Hop(blockers, s, i) in blockers)
    && (forall i, j :: 0 <= i < j < k ==> Hop(blockers, s, i) != Hop(blockers, s, j))
  }

  ghost predicate Stops(blockers: map<int, int>, s: int, k: nat) {
    Passes(blockers, s, k) && (Hop(blockers, s, k) !in blockers || Hop(blockers, s, k) in Visited(blockers, s, k))
  }

  /** The chain ends at an unblocked session after k hops. */
  ghost predicate EndsAfter(blockers: map<int, int>, s: int, k: nat) {
    Hop(blockers, s, k) !in blockers && forall i :: 0 <= i < k ==> Hop(blockers, s, i) in blockers
  }

  /** The chain runs through `tail` sessions into a cycle of `cycle` sessions. */
  ghost predicate Lasso(blockers: map<int, int>, s: int, tail: nat, cycle: nat) {
    cycle >= 1 && Passes(blockers, s, tail + cycle) && Hop(blockers, s, tail + cycle) == Hop(blockers, s, tail)
  }

  method DepthForSession(blockers: map<int, int>, session: int) returns (depth: nat)
    ensures depth <= DEPTH_CAP && Passes(blockers, session, depth)
    ensures depth < DEPTH_CAP ==> Stops(blockers, session, depth)
  {
    depth := 0;
    var seen: set<int> := {};
    var current := session;
    while current in blockers && current !in seen
      invariant depth < DEPTH_CAP && Passes(blockers, session, depth)
      invariant current == Hop(blockers, session, depth) && seen == Visited(blockers, session, depth)
      decreases DEPTH_CAP - depth
    {
      seen := seen + {current};
      VisitedStep(blockers, session, depth);
      current := blockers[current];
      depth := depth + 1;
      if depth > 16 {
        break;
      }
    }
  }

  lemma VisitedStep(blockers: map<int, int>, s: int, n: nat)
    requires Passes(blockers, s, n)
    requires Hop(blockers, s, n) in blockers && Hop(blockers, s, n) !in Visited(blockers, s, n)
    ensures Visited(blockers, s, n + 1) == Visited(blockers, s, n) + {Hop(blockers, s, n)}
    ensures Passes(blockers, s, n + 1)
  {
    assert forall i :: 0 <= i < n ==> Hop(blockers, s, i) in Visited(blockers, s, n);
  }

  ghost predicate IsDepth(blockers: map<int, int>, s: int, depth: nat) {
    depth <= DEPTH_CAP && Passes(blockers, s, depth) && (depth < DEPTH_CAP ==> Stops(blockers, s, depth))
  }

  ghost function Capped(k: nat): nat {
    if k < DEPTH_CAP then k else DEPTH_CAP
  }

  /** The depth is the number of sessions passed, capped at 17. */
  lemma DepthIsCapped(blockers: map<int, int>, s: int, depth: nat, k: nat)
    requires IsDepth(blockers, s, depth) && Stops(blockers, s, k)
    ensures depth == Capped(k)
  {
    if depth < DEPTH_CAP {
      StopIsUnique(blockers, s, depth, k);
    } else {
      PassesAtMost(blockers, s, depth, k);
    }
  }

  lemma PassesAtMost(blockers: map<int, int>, s: int, j: nat, k: nat)
    requires Passes(blockers, s, j) && Stops(blockers, s, k)
    ensures j <= k
  {
    assert Hop(blockers, s, k) in Visited(blockers, s, k) ==>
        exists i :: 0 <= i < k && Hop(blockers, s, i) == Hop(blockers, s, k);
  }

  lemma StopIsUnique(blockers: map<int, int>, s: int, j: nat, k: nat)
    requires Stops(blockers, s, j) && Stops(blockers, s, k)
    ensures j == k
  {
    PassesAtMost(blockers, s, j, k);
    PassesAtMost(blockers, s, k, j);
  }

  lemma {:induction false} HopsAdd(blockers: map<int, int>, s: int, m: nat, n: nat)
    ensures Hop(blockers, s, m + n) == Hop(blockers, Hop(blockers, s, m), n)
  {
    if n > 0 {
      HopsAdd(blockers, s, m, n - 1);
    }
  }

  /** A chain that ends passes no session twice. */
  lemma EndingStops(blockers: map<int, int>, s: int, k: nat)
    requires EndsAfter(blockers, s, k)
    ensures Stops(blockers, s, k)
  {
    forall i, j | 0 <= i < j < k ensures Hop(blockers, s, i) != Hop(blockers, s, j) {
      HopsAdd(blockers, s, i, k - j);
      HopsAdd(blockers, s, j, k - j);
    }
  }

  /** The chain ends after k hops, or is a tail and a cycle of k sessions together. */
  ghost predicate HasShape(blockers: map<int, int>, s: int, k: nat) {
    EndsAfter(blockers, s, k) || exists tail: nat, cycle: nat :: Lasso(blockers, s, tail, cycle) && tail + cycle == k
  }

  /** Whatever the chain looks like, its shape gives the depth: min(17, distance to the end)
      or min(17, tail + cycle). */
  lemma DepthOfShape(blockers: map<int, int>, s: int, depth: nat, k: nat)
    requires IsDepth(blockers, s, depth) && HasShape(blockers, s, k)
    ensures depth == if k < 17 then k else 17
  {
    if EndsAfter(blockers, s, k) {
      EndingStops(blockers, s, k);
    } else {
      var tail: nat, cycle: nat :| Lasso(blockers, s, tail, cycle) && tail + cycle == k;
      assert Hop(blockers, s, tail) in Visited(blockers, s, k);
    }
    DepthIsCapped(blockers, s, depth, k);
  }

  /** The closed form: every session's chain either ends or runs into a cycle, k being the
      distance to the end or the length of tail and cycle; the depth is min(17, k), and k
      is at most the number of blocked sessions. */
  lemma DepthClosedForm(blockers: map<int, int>, s: int, depth: nat) returns (k: nat)
    requires IsDepth(blockers, s, depth)
    ensures depth == (if k < 17 then k else 17) && k <= |blockers|
    ensures HasShape(blockers, s, k)
  {
    k := FindStop(blockers, s, 0);
    DepthIsCapped(blockers, s, depth, k);
    VisitedSize(blockers, s, k);
    SubsetSize(Visited(blockers, s, k), blockers.Keys);
    if Hop(blockers, s, k) in blockers {
      var tail :| 0 <= tail < k && Hop(blockers, s, tail) == Hop(blockers, s, k);
      assert Lasso(blockers, s, tail, k - tail);
    }
  }

  lemma {:induction false} VisitedSize(blockers: map<int, int>, s: int, n: nat)
    requires Passes(blockers, s, n)
    ensures |Visited(blockers, s, n)| == n && Visited(blockers, s, n) <= blockers.Keys
  {
    if n > 0 {
      VisitedLast(blockers, s, n - 1);
      VisitedSize(blockers, s, n - 1);
    }
  }

  /** The last session passed is a new one. */
  lemma VisitedLast(blockers: map<int, int>, s: int, n: nat)
    requires Passes(blockers, s, n + 1)
    ensures Passes(blockers, s, n) && Hop(blockers, s, n) in blockers && Hop(blockers, s, n) !in Visited(blockers, s, n)
    ensures Visited(blockers, s, n + 1) == Visited(blockers, s, n) + {Hop(blockers, s, n)}
  {
    assert forall h :: h in Visited(blockers, s, n + 1) ==> h in Visited(blockers, s, n) || h == Hop(blockers, s, n);
  }

  lemma FindStop(blockers: map<int, int>, s: int, n: nat) returns (k: nat)
    requires Passes(blockers, s, n)
    ensures Stops(blockers, s, k)
    decreases |blockers| - n
  {
    VisitedSize(blockers, s, n);
    SubsetSize(Visited(blockers, s, n), blockers.Keys);
    k := n;
    if !Stops(blockers, s, n) {
      VisitedStep(blockers, s, n);
      VisitedSize(blockers, s, n + 1);
      SubsetSize(Visited(blockers, s, n + 1), blockers.Keys);
      k := FindStop(blockers, s, n + 1);
    }
  }

  /** The depth of a blocked session is one more than its blocker's, up to the cap, except
      when it lies on a blocking cycle shorter than the cap. */
  lemma DepthOfBlocker(blockers: map<int, int>, s: int, depth: nat, blockerDepth: nat)
    requires s in blockers && IsDepth(blockers, s, depth) && IsDepth(blockers, blockers[s], blockerDepth)
    ensures depth == (if blockerDepth < 16 then 1 + blockerDepth else 17) <==>
            !exists cycle: nat :: cycle < 17 && Lasso(blockers, s, 0, cycle)
  {
    var t := blockers[s];
    var k := FindStop(blockers, s, 0);
    DepthIsCapped(blockers, s, depth, k);
    var m := FindStop(blockers, t, 0);
    DepthIsCapped(blockers, t, blockerDepth, m);
    forall n: nat ensures Hop(blockers, t, n) == Hop(blockers, s, n + 1) {
      HopsAdd(blockers, s, 1, n);
    }
    if Lasso(blockers, s, 0, k) {
      CycleFromBlocker(blockers, s, k);
      StopIsUnique(blockers, t, m, k);
      forall cycle: nat | Lasso(blockers, s, 0, cycle) ensures cycle == k {
        StopIsUnique(blockers, s, cycle, k);
      }
    } else {
      forall cycle: nat | Lasso(blockers, s, 0, cycle) ensures false {
        StopIsUnique(blockers, s, cycle, k);
      }
      TailFromBlocker(blockers, s, k);
      StopIsUnique(blockers, t, m, k - 1);
    }
  }

  lemma CycleFromBlocker(blockers: map<int, int>, s: int, k: nat)
    requires s in blockers && Lasso(blockers, s, 0, k)
    ensures Stops(blockers, blockers[s], k)
  {
    var t := blockers[s];
    forall n: nat ensures Hop(blockers, t, n) == Hop(blockers, s, n + 1) {
      HopsAdd(blockers, s, 1, n);
    }
    assert Hop(blockers, t, k - 1) == s;
    assert Hop(blockers, s, k + 1) == Hop(blockers, s, 1) by { HopsAdd(blockers, s, k, 1); }
    assert Hop(blockers, t, k) == Hop(blockers, t, 0);
    assert Hop(blockers, t, 0) in Visited(blockers, t, k);
  }

  lemma TailFromBlocker(blockers: map<int, int>, s: int, k: nat)
    requires s in blockers && Stops(blockers, s, k) && !Lasso(blockers, s, 0, k)
    ensures k >= 1 && Stops(blockers, blockers[s], k - 1)
  {
    var t := blockers[s];
    forall n: nat ensures Hop(blockers, t, n) == Hop(blockers, s, n + 1) {
      HopsAdd(blockers, s, 1, n);
    }
    assert k >= 1;
    if Hop(blockers, s, k) in blockers {
      var i :| 0 <= i < k && Hop(blockers, s, i) == Hop(blockers, s, k);
      assert i > 0;
      assert Hop(blockers, t, i - 1) == Hop(blockers, t, k - 1);
    }
  }

  // ------------------------------------------------------------ head blockers

  datatype LockRow = LockRow(session: Id, blocker: Id)

  ghost predicate IsBlocked(rows: seq<LockRow>, s: int) {
    exists i :: 0 <= i < |rows| && rows[i].session == SessionId(s)
  }

  ghost predicate IsBlocking(rows: seq<LockRow>, b: int) {
    b > 0 && exists i :: 0 <= i < |rows| && rows[i].blocker == SessionId(b)
  }

  const SHOWN_HEADS := 25

  /** `head_blockers`: ascending, exactly the sessions that block and are not blocked. */
  ghost predicate AreHeads(rows: seq<LockRow>, heads: seq<int>) {
    Ascending(heads, IntLess) && forall b :: b in heads <==> IsBlocking(rows, b) && !IsBlocked(rows, b)
  }

  /** The list, and the part of it that is passed on. */
  method HeadBlockers(rows: seq<LockRow>) returns (heads: seq<int>, shown: seq<int>)
    ensures AreHeads(rows, heads) && forall i, j :: 0 <= i < j < |heads| ==> heads[i] < heads[j]
    ensures shown <= heads && |shown| <= 25 && (|shown| < 25 ==> shown == heads)
  {
    var blocking: set<int>, blocked: set<int> := {}, {};
    for n := 0 to |rows|
      invariant forall s :: s in blocked <==> IsBlocked(rows[..n], s)
      invariant forall b :: b in blocking <==> IsBlocking(rows[..n], b)
    {
      var row := rows[n];
      assert rows[..n + 1] == rows[..n] + [row];
      assert forall s :: IsBlocked(rows[..n + 1], s) <==> IsBlocked(rows[..n], s) || row.session == SessionId(s);
      if row.session.SessionId? {
        blocked := blocked + {row.session.n};
      }
      if row.blocker.SessionId? && row.blocker.n > 0 {
        blocking := blocking + {row.blocker.n};
      }
    }
    assert rows[..|rows|] == rows;
    OrdersAreTotal();
    var ordered := Sorted(blocking - blocked, IntLess);
    heads := [];
    var seen: set<int> := {};
    for n := 0 to |ordered|
      invariant heads == ordered[..n] && seen == set i | 0 <= i < n :: ordered[i]
    {
      if ordered[n] !in seen {
        seen := seen + {ordered[n]};
        heads := heads + [ordered[n]];
      }
    }
    assert heads == ordered;
    shown := if |heads| <= SHOWN_HEADS then heads else heads[..SHOWN_HEADS];
  }

  /** Who waits for whom. */
  ghost function WaitsFor(rows: seq<LockRow>): set<(int, int)> {
    set row | row in rows && row.session.SessionId? && row.blocker.SessionId? && row.blocker.n > 0
      :: (row.session.n, row.blocker.n)
  }

  /** Every blocked session has a row that names a positive blocker. */
  ghost predicate EveryBlockedWaits(rows: seq<LockRow>) {
    forall s :: IsBlocked(rows, s) ==> exists e :: e in WaitsFor(rows) && e.0 == s
  }

  ghost predicate LeadsToHead(rows: seq<LockRow>, heads: seq<int>, s: int) {
    exists chain :: IsPath(WaitsFor(rows), chain) && chain[0] == s && chain[|chain| - 1] in heads
  }

  /** When nobody waits in a circle, the head list is complete (every blocked session leads
      along the rows to a head) exactly when every blocked session has a positive blocker. */
  lemma HeadsAreComplete(rows: seq<LockRow>, heads: seq<int>)
    requires AreHeads(rows, heads) && Acyclic(WaitsFor(rows))
    ensures EveryBlockedWaits(rows) <==> forall s :: IsBlocked(rows, s) ==> LeadsToHead(rows, heads, s)
  {
    if EveryBlockedWaits(rows) {
      forall s | IsBlocked(rows, s) ensures LeadsToHead(rows, heads, s) {
        ChainHasAHead(rows, heads, s);
      }
    }
    if forall s :: IsBlocked(rows, s) ==> LeadsToHead(rows, heads, s) {
      forall s | IsBlocked(rows, s) ensures exists e :: e in WaitsFor(rows) && e.0 == s {
        assert LeadsToHead(rows, heads, s);
        var chain :| IsPath(WaitsFor(rows), chain) && chain[0] == s && chain[|chain| - 1] in heads;
        assert |chain| >= 2;
        assert (chain[0], chain[1]) in WaitsFor(rows);
      }
    }
  }

  lemma ChainHasAHead(rows: seq<LockRow>, heads: seq<int>, s: int)
    requires AreHeads(rows, heads) && EveryBlockedWaits(rows) && Acyclic(WaitsFor(rows)) && IsBlocked(rows, s)
    ensures LeadsToHead(rows, heads, s)
  {
    var waits := WaitsFor(rows);
    AcyclicIffRanked(waits);
    var rank :| Ranks(waits, rank);
    var chain := LeadsToEnd(waits, rank, s);
    var last := chain[|chain| - 1];
    assert |chain| >= 2;
    assert (chain[|chain| - 2], last) in waits;
    var row :| row in rows && row.session.SessionId? && row.blocker.SessionId?
      && row.blocker.n > 0 && row.blocker.n == last;
    var i :| 0 <= i < |rows| && rows[i] == row;
    assert IsBlocking(rows, last);
    assert last in heads;
  }

  lemma PositiveIdsWait(rows: seq<LockRow>)
    requires forall row :: row in rows ==> row.session.SessionId? && row.blocker.SessionId? && row.blocker.n > 0
    ensures EveryBlockedWaits(rows)
  {
    forall s | IsBlocked(rows, s) ensures exists e :: e in WaitsFor(rows) && e.0 == s {
      var i :| 0 <= i < |rows| && rows[i].session == SessionId(s);
      assert rows[i] in rows;
      assert (s, rows[i].blocker.n) in WaitsFor(rows);
    }
  }

  /** Rows of positive ids without any head blocker mean that sessions wait in a circle. */
  lemma NoHeadMeansCycle(rows: seq<LockRow>, heads: seq<int>)
    requires AreHeads(rows, heads) && rows != [] && heads == []
    requires forall row :: row in rows ==> row.session.SessionId? && row.blocker.SessionId? && row.blocker.n > 0
    ensures !Acyclic(WaitsFor(rows))
  {
    PositiveIdsWait(rows);
    if Acyclic(WaitsFor(rows)) {
      assert IsBlocked(rows, rows[0].session.n);
      ChainHasAHead(rows, heads, rows[0].session.n);
      assert false;
    }
  }

  /** SQL Server reports negative blockers for orphaned work: such a row leaves a blocked
      session, no head and no circle. */
  lemma OrphanedBlockerHasNoHead()
    ensures var rows := [LockRow(SessionId(52), SessionId(-2))];
      IsBlocked(rows, 52) && Acyclic(WaitsFor(rows)) && AreHeads(rows, []) && !LeadsToHead(rows, [], 52)
  {
    var rows := [LockRow(SessionId(52), SessionId(-2))];
    assert rows[0].session == SessionId(52);
    forall v: int ensures !Reaches(WaitsFor(rows), v, v) {
      if Reaches(WaitsFor(rows), v, v) {
        ReachesNodes(WaitsFor(rows), v, v);
      }
    }
  }
}
