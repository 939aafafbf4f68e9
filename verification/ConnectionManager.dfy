/** The connection manager of one instance, run by one caller at a time. Its lock blocks
    are the atomic steps of PoolProtocol; the database server is an oracle. */
module ConnectionManagers {
  import opened Collections
  import opened Pool

  const READ_RETRY_ATTEMPTS := 2

  datatype Acquired = Granted(conn: Conn, pooled: bool) | ConnectError | AcquireTimeout

  datatype Outcome = Rows(count: nat) | Failed

  /** How the server answers during one attempt: which idle connections pass the probe,
      whether a new connection can be made, what the operation does, and whether the
      connection survives it; `transient` classifies whichever error the attempt raises. */
  datatype Attempt = Attempt(usable: set<Conn>, connects: bool, raises: bool, rows: nat,
                             stillUsable: bool, autocommitSet: bool, transient: bool)

  /** The effect of a read: `executed` lists the connections the operation ran on. */
  datatype ReadRun = ReadRun(pool: Pool, nextId: Conn, executed: seq<Conn>, outcome: Outcome)

  /** How many idle connections are left once the unusable tail is dropped. */
  function UsableLength(idle: seq<Conn>, usable: set<Conn>): (n: nat)
    ensures n <= |idle|
    ensures n > 0 ==> idle[n - 1] in usable
    ensures forall j :: n <= j < |idle| ==> idle[j] !in usable
  {
    if idle == [] then 0
    else if idle[|idle| - 1] in usable then |idle|
    else UsableLength(idle[..|idle| - 1], usable)
  }

  function AcquireAlone(p: Pool, usable: set<Conn>, newId: Conn, connects: bool, poolMax: int): (Pool, Acquired) {
    var n := UsableLength(p.available, usable);
    var dropped := |p.available| - n;
    var q := p.(available := p.available[..n], reused := p.reused + dropped, discarded := p.discarded + dropped);
    if n > 0 then
      var c := p.available[n - 1];
      (q.(available := p.available[..n - 1], inUse := p.inUse + [c], reused := q.reused + 1), Granted(c, true))
    else if |p.inUse| >= Cap(poolMax) then (q, AcquireTimeout)
    else if connects then (Register(q, newId), Granted(newId, true))
    else (q, ConnectError)
  }

  function ReadOnce(p: Pool, nextId: Conn, pooled: bool, a: Attempt, poolMax: int): ReadRun {
    var outcome := if a.raises then Failed else Rows(a.rows);
    if !pooled then
      if a.connects then ReadRun(p, nextId + 1, [nextId], outcome) else ReadRun(p, nextId, [], Failed)
    else
      var (q, r) := AcquireAlone(p, a.usable, nextId, a.connects, poolMax);
      if r.Granted? then
        ReadRun(Return(q, r.conn, !a.raises && a.stillUsable && a.autocommitSet, poolMax),
                if r.conn == nextId then nextId + 1 else nextId, [r.conn], outcome)
      else ReadRun(q, nextId, [], Failed)
  }

  /** At most one retry, and only after an error classified as transient. */
  function Read(p: Pool, nextId: Conn, pooled: bool, first: Attempt, second: Attempt, poolMax: int): ReadRun {
    var r := ReadOnce(p, nextId, pooled, first, poolMax);
    if r.outcome.Rows? || !first.transient then r
    else
      var r2 := ReadOnce(r.pool, r.nextId, pooled, second, poolMax);
      r2.(executed := r.executed + r2.executed)
  }

  ghost predicate IdsBelow(p: Pool, nextId: Conn) {
    forall c :: c in p.available || c in p.inUse ==> c < nextId
  }

  /** Run alone, acquire discards exactly the unusable tail of the idle connections and
      hands out the rightmost usable one; only when there is none and there is room does
      it create, and only when there is neither does it time out. */
  lemma AcquireAloneEffect(p: Pool, usable: set<Conn>, newId: Conn, connects: bool, poolMax: int)
    requires p.Valid() && IdsBelow(p, newId)
    ensures var (q, r) := AcquireAlone(p, usable, newId, connects, poolMax);
      && q.Valid() && IdsBelow(q, newId + 1)
      && q.available <= p.available && q.reused - p.reused == |p.available| - |q.available|
      && (r.Granted? ==> r.pooled && q.inUse == p.inUse + [r.conn] && r.conn !in p.inUse && r.conn !in q.available)
      && (r.Granted? ==> r.conn == newId || (r.conn < newId && q.created == p.created))
      && (!r.Granted? ==> q.inUse == p.inUse)
      && (if exists c :: c in p.available && c in usable then
            var n := |q.available|;
            && r.Granted? && n < |p.available| && r.conn == p.available[n] && r.conn in usable
            && (forall j :: n < j < |p.available| ==> p.available[j] !in usable)
            && q.discarded - p.discarded == |p.available| - n - 1 && q.created == p.created
          else
            && q.available == [] && q.discarded - p.discarded == |p.available|
            && (r.AcquireTimeout? <==> |p.inUse| >= Cap(poolMax))
            && (r.Granted? <==> |p.inUse| < Cap(poolMax) && connects)
            && (r.Granted? ==> r.conn == newId && q.created == p.created + 1)
            && (!r.Granted? ==> q.created == p.created))
  {
    var n := UsableLength(p.available, usable);
    if n > 0 {
      assert p.available[n - 1] in p.available;
      NoDupAppend(p.inUse, p.available[n - 1]);
      assert forall j :: 0 <= j < n - 1 ==> p.available[..n - 1][j] == p.available[j];
    } else {
      NoDupAppend(p.inUse, newId);
    }
  }

  /** When no idle connection is usable, `pool_max` decides: below it the caller creates, and
      gets the connection or the error; otherwise it times out. A `pool_max` below 1 is 1. */
  lemma AcquireInPoolMax(p: Pool, usable: set<Conn>, newId: Conn, connects: bool, poolMax: int)
    requires !SomeUsable(p.available, usable)
    ensures var r := AcquireAlone(p, usable, newId, connects, poolMax).1;
      && (poolMax >= 1 ==>
            && (r == Granted(newId, true) <==> |p.inUse| < poolMax && connects)
            && (r == ConnectError <==> |p.inUse| < poolMax && !connects)
            && (r == AcquireTimeout <==> |p.inUse| >= poolMax))
      && (poolMax < 1 ==>
            && (r == Granted(newId, true) <==> p.inUse == [] && connects)
            && (r == ConnectError <==> p.inUse == [] && !connects)
            && (r == AcquireTimeout <==> p.inUse != []))
  {
    UsableIsSome(p.available, usable);
  }

  // ------------------------------------------------------------ the outcome of a read

  /** Some idle connection is usable. */
  ghost predicate SomeUsable(idle: seq<Conn>, usable: set<Conn>) {
    exists k :: 0 <= k < |idle| && idle[k] in usable
  }

  /** The attempt gets a connection: an idle usable one, or a new one if there is room and
      the server accepts it; outside the pool always a new one. */
  ghost predicate Obtains(idle: seq<Conn>, inUse: nat, pooled: bool, a: Attempt, poolMax: int) {
    if pooled then SomeUsable(idle, a.usable) || (a.connects && (inUse < poolMax || inUse == 0)) else a.connects
  }

  ghost predicate Succeeds(idle: seq<Conn>, inUse: nat, pooled: bool, a: Attempt, poolMax: int) {
    Obtains(idle, inUse, pooled, a, poolMax) && !a.raises
  }

  /** `rest` is what a failed attempt leaves idle: all below the rightmost usable connection,
      which it used and threw away, or nothing if it had to go through all of them. */
  ghost predicate LeftIdle(idle: seq<Conn>, rest: seq<Conn>, a: Attempt) {
    && rest <= idle
    && (SomeUsable(idle, a.usable) ==> |rest| < |idle| && idle[|rest|] in a.usable)
    && (!SomeUsable(idle, a.usable) ==> rest == [])
    && forall k :: |rest| < k < |idle| ==> idle[k] !in a.usable
  }

  /** What one attempt runs on: the rightmost usable idle connection, or a new one. */
  ghost predicate RunsOn(idle: seq<Conn>, pooled: bool, a: Attempt, newId: Conn, c: Conn) {
    if pooled && SomeUsable(idle, a.usable) then
      exists k :: 0 <= k < |idle| && idle[k] == c && c in a.usable
        && forall j :: k < j < |idle| ==> idle[j] !in a.usable
    else c == newId
  }

  lemma UsableIsSome(idle: seq<Conn>, usable: set<Conn>)
    ensures UsableLength(idle, usable) > 0 <==> SomeUsable(idle, usable)
  {
    var n := UsableLength(idle, usable);
    if n > 0 {
      assert idle[n - 1] in usable;
    }
  }

  /** One attempt: rows come back exactly when it gets a connection and does not raise. */
  lemma OnceOutcome(p: Pool, nextId: Conn, pooled: bool, a: Attempt, poolMax: int)
    requires p.Valid() && IdsBelow(p, nextId)
    ensures var r := ReadOnce(p, nextId, pooled, a, poolMax);
      && (r.outcome.Rows? <==> Succeeds(p.available, |p.inUse|, pooled, a, poolMax))
      && (r.outcome.Rows? ==> r.outcome.count == a.rows)
      && |r.executed| == (if Obtains(p.available, |p.inUse|, pooled, a, poolMax) then 1 else 0)
      && (r.executed != [] ==> RunsOn(p.available, pooled, a, nextId, r.executed[0]))
      && r.nextId == (if nextId in r.executed then nextId + 1 else nextId)
  {
    UsableIsSome(p.available, a.usable);
    if pooled {
      var n := UsableLength(p.available, a.usable);
      if n > 0 {
        assert p.available[n - 1] in p.available;
      }
    }
  }

  /** What a failed attempt leaves in the pool. */
  lemma OnceFailed(p: Pool, nextId: Conn, pooled: bool, a: Attempt, poolMax: int)
    requires p.Valid() && IdsBelow(p, nextId)
    ensures var r := ReadOnce(p, nextId, pooled, a, poolMax);
      r.outcome.Failed? ==>
        && r.pool.inUse == p.inUse
        && (if pooled then LeftIdle(p.available, r.pool.available, a) else r.pool == p)
  {
    ReadOncePool(p, nextId, pooled, a, poolMax);
    UsableIsSome(p.available, a.usable);
    if pooled {
      var n := UsableLength(p.available, a.usable);
      var (q, g) := AcquireAlone(p, a.usable, nextId, a.connects, poolMax);
      assert n > 0 ==> q.available == p.available[..n - 1];
    }
  }

  /** When a second attempt follows, and what it finds idle. */
  ghost predicate Retries(p: Pool, pooled: bool, first: Attempt, rest: seq<Conn>, poolMax: int) {
    && !Succeeds(p.available, |p.inUse|, pooled, first, poolMax) && first.transient
    && (if pooled then LeftIdle(p.available, rest, first) else rest == p.available)
  }

  /** A whole read, for every sound pool: rows come back if and only if the first attempt gets
      a connection and does not raise, or fails with a transient error and the second gets a
      connection and does not raise. They are that attempt's rows, and it ran last. */
  lemma ReadOutcome(p: Pool, nextId: Conn, pooled: bool, first: Attempt, second: Attempt, poolMax: int)
    returns (rest: seq<Conn>)
    requires p.Valid() && IdsBelow(p, nextId)
    ensures var r := Read(p, nextId, pooled, first, second, poolMax); var used := |p.inUse|;
      if Succeeds(p.available, used, pooled, first, poolMax) then
        r.outcome == Rows(first.rows) && |r.executed| == 1 && RunsOn(p.available, pooled, first, nextId, r.executed[0])
      else if first.transient then
        var tried := if Obtains(p.available, used, pooled, first, poolMax) then 1 else 0;
        var again := Obtains(rest, used, pooled, second, poolMax);
        && Retries(p, pooled, first, rest, poolMax)
        && r.outcome == (if again && !second.raises then Rows(second.rows) else Failed)
        && |r.executed| == tried + (if again then 1 else 0)
        && (tried == 1 ==> RunsOn(p.available, pooled, first, nextId, r.executed[0]))
        && (again ==> RunsOn(rest, pooled, second, if nextId in r.executed[..tried] then nextId + 1 else nextId,
                             r.executed[tried]))
      else r.outcome == Failed && |r.executed| <= 1
  {
    ReadOncePool(p, nextId, pooled, first, poolMax);
    OnceOutcome(p, nextId, pooled, first, poolMax);
    OnceFailed(p, nextId, pooled, first, poolMax);
    var r := ReadOnce(p, nextId, pooled, first, poolMax);
    OnceOutcome(r.pool, r.nextId, pooled, second, poolMax);
    rest := r.pool.available;
    assert (r.executed + ReadOnce(r.pool, r.nextId, pooled, second, poolMax).executed)[..|r.executed|] == r.executed;
  }

  lemma {:induction false} RemoveAppended(s: seq<Conn>, c: Conn)
    requires c !in s
    ensures RemoveFirst(s + [c], c) == s
  {
    RemoveFirstAt(s + [c], c, |s|);
  }

  /** One pass of the acquire loop over an unusable connection changes nothing but the
      idle list and the counters. */
  lemma DropUnusable(p: Pool, usable: set<Conn>, newId: Conn, connects: bool, poolMax: int)
    requires p.Valid() && p.available != [] && p.available[|p.available| - 1] !in usable
    ensures var (q, g) := Take(p, poolMax);
      AcquireAlone(Discard(q, g.conn), usable, newId, connects, poolMax)
      == AcquireAlone(p, usable, newId, connects, poolMax)
  {
    var n := |p.available| - 1;
    var c := p.available[n];
    assert c in p.available;
    RemoveAppended(p.inUse, c);
    var m := UsableLength(p.available, usable);
    assert m == UsableLength(p.available[..n], usable);
    assert p.available[..n][..m] == p.available[..m];
    if m > 0 {
      assert p.available[..n][..m - 1] == p.available[..m - 1];
    }
  }

  /** A pass of the acquire loop that is the last one. */
  lemma LastPass(p: Pool, usable: set<Conn>, newId: Conn, connects: bool, poolMax: int)
    requires p.Valid() && IdsBelow(p, newId)
    requires p.available == [] || p.available[|p.available| - 1] in usable
    ensures var (q, g) := Take(p, poolMax);
      && AcquireAlone(p, usable, newId, connects, poolMax)
         == (match g
             case Reuse(c) => (q, Granted(c, true))
             case Create => if connects then (Register(p, newId), Granted(newId, true)) else (p, ConnectError)
             case Full => (p, AcquireTimeout))
      && (g.Create? ==> Register(p, newId).Valid() && IdsBelow(Register(p, newId), newId + 1))
      && (g.Reuse? ==> g.conn < newId)
  {
    var n := |p.available|;
    if n > 0 {
      assert p.available[..n] == p.available && p.available[n - 1] in p.available;
    } else {
      NoDupAppend(p.inUse, newId);
    }
  }

  /** One attempt, the pool's side: nothing stays in use, and the books balance. */
  lemma ReadOncePool(p: Pool, nextId: Conn, pooled: bool, a: Attempt, poolMax: int)
    requires p.Valid() && IdsBelow(p, nextId)
    ensures var r := ReadOnce(p, nextId, pooled, a, poolMax);
      && r.pool.Valid() && IdsBelow(r.pool, r.nextId) && r.pool.inUse == p.inUse
      && (!pooled ==> r.pool == p)
      && (p.Size() <= Cap(poolMax) ==> r.pool.Size() <= Cap(poolMax))
      && r.pool.created + p.Size() + p.discarded == p.created + r.pool.Size() + r.pool.discarded
  {
    if pooled {
      var (q, r) := AcquireAlone(p, a.usable, nextId, a.connects, poolMax);
      AcquireAloneEffect(p, a.usable, nextId, a.connects, poolMax);
      AcquireAloneSize(p, nextId, a, poolMax);
      if r.Granted? {
        ReturnEffect(q, p.inUse, r.conn, !a.raises && a.stillUsable && a.autocommitSet, poolMax);
      }
    }
  }

  /** One attempt, the operation's side: it runs at most once, rows come back only if it
      did not raise, and a connection it raised on is gone. */
  lemma ReadOnceOperation(p: Pool, nextId: Conn, pooled: bool, a: Attempt, poolMax: int)
    requires p.Valid() && IdsBelow(p, nextId)
    ensures var r := ReadOnce(p, nextId, pooled, a, poolMax);
      && |r.executed| <= 1 && (r.outcome.Rows? <==> |r.executed| == 1 && !a.raises)
      && (r.outcome.Rows? ==> r.outcome.count == a.rows)
      && (r.outcome.Failed? ==> forall c :: c in r.executed ==> c !in r.pool.available && c !in r.pool.inUse)
      && nextId <= r.nextId && (forall c :: c in r.executed ==> c < r.nextId)
      && (forall c :: c in r.pool.available ==> c in p.available || c >= nextId)
  {
    if pooled {
      var (q, r) := AcquireAlone(p, a.usable, nextId, a.connects, poolMax);
      AcquireAloneEffect(p, a.usable, nextId, a.connects, poolMax);
      AcquireAloneSize(p, nextId, a, poolMax);
      if r.Granted? {
        ReturnEffect(q, p.inUse, r.conn, !a.raises && a.stillUsable && a.autocommitSet, poolMax);
      }
    }
  }

  /** However the pool is shared, the operation runs at most twice, and it ran if rows came. */
  lemma ExecutedAtMostTwice(p: Pool, nextId: Conn, pooled: bool, first: Attempt, second: Attempt, poolMax: int)
    ensures var r := Read(p, nextId, pooled, first, second, poolMax);
      |r.executed| <= 2 && (r.outcome.Rows? ==> r.executed != [])
  {
    var r := ReadOnce(p, nextId, pooled, first, poolMax);
    assert |r.executed| <= 1 && (r.outcome.Rows? ==> r.executed != []);
    var r2 := ReadOnce(r.pool, r.nextId, pooled, second, poolMax);
    assert |r2.executed| <= 1 && (r2.outcome.Rows? ==> r2.executed != []);
  }

  /** What acquiring does to the size of the pool. */
  lemma AcquireAloneSize(p: Pool, nextId: Conn, a: Attempt, poolMax: int)
    requires p.Valid() && IdsBelow(p, nextId)
    ensures var (q, r) := AcquireAlone(p, a.usable, nextId, a.connects, poolMax);
      && (p.Size() <= Cap(poolMax) ==> q.Size() <= Cap(poolMax))
      && q.created + p.Size() + p.discarded == p.created + q.Size() + q.discarded
      && (forall c :: c in q.available ==> c in p.available)
  {
  }

  /** Returning the connection taken last restores the list of connections in use. */
  lemma ReturnEffect(q: Pool, before: seq<Conn>, c: Conn, keep: bool, poolMax: int)
    requires q.Valid() && q.inUse == before + [c] && c !in before && c !in q.available
    ensures var t := Return(q, c, keep, poolMax);
      && t.Valid() && t.inUse == before
      && (forall x :: x in t.available <==> x in q.available || (x == c && keep && |q.available| < Cap(poolMax)))
      && t.created == q.created && t.Size() + t.discarded == q.Size() + q.discarded
  {
    RemoveAppended(before, c);
    RemoveFirstEffect(q.inUse, c);
    NoDupAppend(q.available, c);
  }

  /** A whole read, run alone, leaves the connections in use as they were, keeps the pool
      within its cap, balances created against discarded, and never keeps a connection
      whose operation failed. The operation runs at most twice, and twice only after a
      transient failure. */
  lemma ReadEffect(p: Pool, nextId: Conn, pooled: bool, first: Attempt, second: Attempt, poolMax: int)
    requires p.Valid() && IdsBelow(p, nextId)
    ensures var r := Read(p, nextId, pooled, first, second, poolMax);
      && r.pool.Valid() && IdsBelow(r.pool, r.nextId) && r.pool.inUse == p.inUse
      && (!pooled ==> r.pool == p)
      && |r.executed| <= 2
      && (|r.executed| == 2 ==> first.raises && first.transient)
      && (r.outcome.Rows? ==> r.executed != [])
      && (forall k :: 0 <= k < |r.executed| && (r.outcome.Rows? ==> k < |r.executed| - 1) ==>
            r.executed[k] !in r.pool.available && r.executed[k] !in r.pool.inUse)
      && (p.Size() <= Cap(poolMax) ==> r.pool.Size() <= Cap(poolMax))
      && r.pool.created + p.Size() + p.discarded == p.created + r.pool.Size() + r.pool.discarded
  {
    ReadOncePool(p, nextId, pooled, first, poolMax);
    ReadOnceOperation(p, nextId, pooled, first, poolMax);
    var r := ReadOnce(p, nextId, pooled, first, poolMax);
    ReadOncePool(r.pool, r.nextId, pooled, second, poolMax);
    ReadOnceOperation(r.pool, r.nextId, pooled, second, poolMax);
  }

  class ConnectionManager {
    const poolMax: int
    const poolEnabled: bool
    const acquireTimeoutSec: int
    var available: seq<Conn>
    var inUse: seq<Conn>
    var createdTotal: nat
    var reusedTotal: nat
    var discardedTotal: nat
    var nextId: Conn  // identities are handed out in the order of the physical connects

    ghost function State(): Pool
      reads this
    {
      Pool(available, inUse, createdTotal, reusedTotal, discardedTotal)
    }

    ghost predicate Valid()
      reads this
    {
      State().Valid() && IdsBelow(State(), nextId)
    }

    constructor (poolMax: int, poolEnabled: bool, acquireTimeoutSec: int)
      ensures Valid() && State() == Pool([], [], 0, 0, 0) && nextId == 0
      ensures this.poolMax == poolMax && this.poolEnabled == poolEnabled
    {
      this.poolMax, this.poolEnabled, this.acquireTimeoutSec := poolMax, poolEnabled, acquireTimeoutSec;
      available, inUse := [], [];
      createdTotal, reusedTotal, discardedTotal, nextId := 0, 0, 0, 0;
    }

    method RemoveInUse(conn: Conn)
      modifies this`inUse
      ensures inUse == RemoveFirst(old(inUse), conn)
    {
      var idx := 0;
      while idx < |inUse|
        invariant inUse == old(inUse) && idx <= |inUse|
        invariant conn !in inUse[..idx]
      {
        if inUse[idx] == conn {
          RemoveFirstAt(inUse, conn, idx);
          inUse := inUse[..idx] + inUse[idx + 1..];
          return;
        }
        idx := idx + 1;
      }
      assert inUse[..idx] == inUse;
      RemoveFirstAbsent(inUse, conn);
    }

    /** The first lock block of the acquire loop. */
    method TakeBlock() returns (g: Grant)
      modifies this
      ensures (State(), g) == Take(old(State()), poolMax) && nextId == old(nextId)
    {
      if available != [] {
        var conn := available[|available| - 1];
        available := available[..|available| - 1];
        inUse := inUse + [conn];
        reusedTotal := reusedTotal + 1;
        return Reuse(conn);
      }
      var poolCap := if 1 < poolMax then poolMax else 1;
      var poolSize := |available| + |inUse|;
      g := if poolSize < poolCap then Create else Full;
    }

    method DiscardBlock(conn: Conn)
      modifies this
      ensures State() == Discard(old(State()), conn) && nextId == old(nextId)
    {
      RemoveInUse(conn);
      discardedTotal := discardedTotal + 1;
    }

    method RegisterBlock(conn: Conn)
      modifies this
      ensures State() == Register(old(State()), conn) && nextId == old(nextId)
    {
      inUse := inUse + [conn];
      createdTotal := createdTotal + 1;
    }

    /** The lock block of a release; reports whether the connection is to be closed. */
    method ReturnBlock(conn: Conn, shouldDiscard: bool, autocommitSet: bool) returns (closeNow: bool)
      modifies this
      ensures State() == Return(old(State()), conn, !shouldDiscard && autocommitSet, poolMax)
      ensures nextId == old(nextId)
      ensures closeNow <==> available == old(available)
    {
      RemoveInUse(conn);
      if shouldDiscard {
        discardedTotal := discardedTotal + 1;
        closeNow := true;
      } else if !autocommitSet {
        discardedTotal := discardedTotal + 1;
        closeNow := true;
      } else {
        var poolCap := if 1 < poolMax then poolMax else 1;
        if |available| < poolCap {
          available := available + [conn];
          closeNow := false;
        } else {
          discardedTotal := discardedTotal + 1;
          closeNow := true;
        }
      }
    }

    method CloseAllPools() returns (toClose: seq<Conn>)
      modifies this
      ensures State() == Clear(old(State())) && nextId == old(nextId)
      ensures toClose == old(available) + old(inUse)
    {
      toClose := available + inUse;
      available, inUse := [], [];
    }

    /** A physical connect: a fresh identity or an error. */
    method ConnectNew(connects: bool) returns (conn: Conn)
      modifies this`nextId
      ensures conn == old(nextId) && nextId == if connects then conn + 1 else conn
    {
      conn := nextId;
      if connects {
        nextId := nextId + 1;
      }
    }

    method AcquireConnection(override: bool, usable: set<Conn>, connects: bool) returns (r: Acquired)
      requires Valid()
      modifies this
      ensures Valid()
      ensures nextId == if r.Granted? && r.conn == old(nextId) then old(nextId) + 1 else old(nextId)
      ensures poolEnabled && !override ==>
        (State(), r) == AcquireAlone(old(State()), usable, old(nextId), connects, poolMax)
      ensures !(poolEnabled && !override) ==>
        State() == old(State()) && r == if connects then Granted(old(nextId), false) else ConnectError
    {
      var usePool := poolEnabled && !override;
      if !usePool {
        var conn := ConnectNew(connects);
        return if connects then Granted(conn, false) else ConnectError;
      }
      // alone, nobody else notifies: the wait of the full branch ends at the deadline
      var remaining := if 0 < acquireTimeoutSec then acquireTimeoutSec else 0;
      while true
        invariant Valid() && nextId == old(nextId)
        invariant AcquireAlone(State(), usable, nextId, connects, poolMax)
               == AcquireAlone(old(State()), usable, nextId, connects, poolMax)
        decreases |available|, remaining
      {
        ghost var p := State();
        TakeEffect(p, poolMax);
        var g := TakeBlock();
        match g {
          case Reuse(conn) =>
            if conn in usable {
              LastPass(p, usable, nextId, connects, poolMax);
              return Granted(conn, true);
            }
            DropUnusable(p, usable, nextId, connects, poolMax);
            RemoveFirstEffect(inUse, conn);
            DiscardBlock(conn);
          case Create =>
            LastPass(p, usable, nextId, connects, poolMax);
            var conn := ConnectNew(connects);
            if !connects {
              return ConnectError;
            }
            RegisterBlock(conn);
            return Granted(conn, true);
          case Full =>
            LastPass(p, usable, nextId, connects, poolMax);
            if remaining <= 0 {
              return AcquireTimeout;
            }
            remaining := 0;
        }
      }
    }

    method ReleaseConnection(conn: Conn, pooled: bool, hadError: bool, stillUsable: bool, autocommitSet: bool)
      modifies this
      ensures nextId == old(nextId)
      ensures State() == if pooled then Return(old(State()), conn, !hadError && stillUsable && autocommitSet, poolMax)
                         else old(State())
    {
      if !pooled {
        return;
      }
      var shouldDiscard := hadError || !stillUsable;
      var _ := ReturnBlock(conn, shouldDiscard, autocommitSet);
    }

    /** `with self.connect(...) as conn: operation(conn)` */
    method ConnectAndRun(override: bool, a: Attempt) returns (executed: seq<Conn>, outcome: Outcome)
      requires Valid()
      modifies this
      ensures Valid()
      ensures ReadRun(State(), nextId, executed, outcome)
           == ReadOnce(old(State()), old(nextId), poolEnabled && !override, a, poolMax)
    {
      ReadOncePool(State(), nextId, poolEnabled && !override, a, poolMax);
      var r := AcquireConnection(override, a.usable, a.connects);
      if !r.Granted? {
        return [], Failed;
      }
      ReleaseConnection(r.conn, r.pooled, a.raises, a.stillUsable, a.autocommitSet);
      return [r.conn], if a.raises then Failed else Rows(a.rows);
    }

    /** `attempts[i]` is what the server does if attempt i takes place. */
    method RunReadOperation(override: bool, attempts: seq<Attempt>) returns (executed: seq<Conn>, outcome: Outcome)
      requires Valid() && |attempts| == READ_RETRY_ATTEMPTS
      modifies this
      ensures Valid()
      ensures ReadRun(State(), nextId, executed, outcome)
           == Read(old(State()), old(nextId), poolEnabled && !override, attempts[0], attempts[1], poolMax)
    {
      executed, outcome := [], Failed;
      var attempt := 0;
      while attempt < READ_RETRY_ATTEMPTS
        invariant Valid() && attempt < READ_RETRY_ATTEMPTS
        invariant attempt == 0 ==> State() == old(State()) && nextId == old(nextId) && executed == []
        invariant attempt == 1 ==> attempts[0].transient
        invariant attempt == 1 ==>
          ReadRun(State(), nextId, executed, Failed)
          == ReadOnce(old(State()), old(nextId), poolEnabled && !override, attempts[0], poolMax)
      {
        var conns;
        conns, outcome := ConnectAndRun(override, attempts[attempt]);
        executed := executed + conns;
        if outcome.Rows? {
          return;
        }
        var canRetry := attempt < READ_RETRY_ATTEMPTS - 1 && attempts[attempt].transient;
        if !canRetry {
          return;
        }
        attempt := attempt + 1;
      }
    }
  }
}
