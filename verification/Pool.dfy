/** The connection pool of one SQL instance: what each lock-protected block of the
    connection manager does to the pool record. Both the class that runs alone and the
    interleaved protocol are built from these functions. */
module Pool {
  import opened Collections

  type Conn = nat  // the identity of a physical connection

  datatype Pool = Pool(available: seq<Conn>, inUse: seq<Conn>, created: nat, reused: nat, discarded: nat) {
    function Size(): nat {
      |available| + |inUse|
    }

    /** Every pooled connection is listed once, either as available or as in use. */
    ghost predicate Valid() {
      NoDup(available) && NoDup(inUse) && (forall c :: c in available ==> c !in inUse)
    }
  }

  /** What the first lock block of an acquire attempt decides. */
  datatype Grant = Reuse(conn: Conn) | Create | Full

  /** `max(1, pool_max)` */
  function Cap(poolMax: int): (r: nat)
    ensures r >= 1 && r >= poolMax && (r == 1 || r == poolMax)
  {
    if poolMax < 1 then 1 else poolMax
  }

  function RemoveFirst(s: seq<Conn>, c: Conn): seq<Conn> {
    if s == [] then [] else if s[0] == c then s[1..] else [s[0]] + RemoveFirst(s[1..], c)
  }

  /** Pop the most recently returned connection, or else create one below the cap. */
  function Take(p: Pool, poolMax: int): (Pool, Grant) {
    if p.available != [] then
      var n := |p.available| - 1;
      var c := p.available[n];
      (p.(available := p.available[..n], inUse := p.inUse + [c], reused := p.reused + 1), Reuse(c))
    else if p.Size() < Cap(poolMax) then (p, Create)
    else (p, Full)
  }

  function Discard(p: Pool, c: Conn): Pool {
    p.(inUse := RemoveFirst(p.inUse, c), discarded := p.discarded + 1)
  }

  function Register(p: Pool, c: Conn): Pool {
    p.(inUse := p.inUse + [c], created := p.created + 1)
  }

  /** The lock block of a release; `keep` says that the user did not fail, the probe
      succeeded and autocommit could be reset. */
  function Return(p: Pool, c: Conn, keep: bool, poolMax: int): Pool {
    if keep && |p.available| < Cap(poolMax) then
      p.(inUse := RemoveFirst(p.inUse, c), available := p.available + [c])
    else Discard(p, c)
  }

  function Clear(p: Pool): Pool {
    p.(available := [], inUse := [])
  }

  lemma {:induction false} RemoveFirstEffect(s: seq<Conn>, c: Conn)
    requires NoDup(s)
    ensures NoDup(RemoveFirst(s, c))
    ensures forall x :: x in RemoveFirst(s, c) <==> x in s && x != c
    ensures |RemoveFirst(s, c)| == if c in s then |s| - 1 else |s|
  {
    if s != [] {
      NoDupTail(s);
      if s[0] != c {
        RemoveFirstEffect(s[1..], c);
        NoDupPrepend(s[0], RemoveFirst(s[1..], c));
      }
    }
  }

  lemma {:induction false} RemoveFirstAt(s: seq<Conn>, c: Conn, i: nat)
    requires i < |s| && s[i] == c && c !in s[..i]
    ensures RemoveFirst(s, c) == s[..i] + s[i + 1..]
  {
    if i > 0 {
      assert s[0] == s[..i][0];
      assert s[1..][..i - 1] == s[..i][1..];
      RemoveFirstAt(s[1..], c, i - 1);
      assert s[..i] == [s[0]] + s[1..][..i - 1];
      assert s[i + 1..] == s[1..][i..];
    }
  }

  lemma {:induction false} RemoveFirstAbsent(s: seq<Conn>, c: Conn)
    requires c !in s
    ensures RemoveFirst(s, c) == s
  {
    if s != [] {
      RemoveFirstAbsent(s[1..], c);
    }
  }

  /** A connection that is kept is the next one to be handed out, and the other idle ones
      keep their order behind it; one that is not kept leaves the idle list as it is. */
  lemma LastInFirstOut(p: Pool, c: Conn, keep: bool, poolMax: int)
    ensures var q := Return(p, c, keep, poolMax); var (r, g) := Take(q, poolMax);
      if keep && (|p.available| < poolMax || p.available == [])
      then g == Reuse(c) && r.available == p.available
      else q.available == p.available && q.discarded == p.discarded + 1
  {
    assert (p.available + [c])[..|p.available|] == p.available;
  }

  lemma TakeEffect(p: Pool, poolMax: int)
    requires p.Valid()
    ensures var (q, g) := Take(p, poolMax);
      q.Valid() &&
      match g
      case Reuse(c) =>
        && c in p.available && c !in p.inUse && c !in q.available && c in q.inUse
        && (forall x :: x in q.available <==> x in p.available && x != c)
        && (forall x :: x in q.inUse <==> x in p.inUse || x == c)
      case Create => q == p && p.available == [] && |p.inUse| < Cap(poolMax)
      case Full => q == p && p.available == [] && |p.inUse| >= Cap(poolMax)
  {
    if p.available != [] {
      var n := |p.available| - 1;
      assert p.available == p.available[..n] + [p.available[n]];
      assert p.available[n] in p.available;
      NoDupAppend(p.inUse, p.available[n]);
    }
  }
}
