/** The limiter shared through Redis: an atomic script over sorted sets of millisecond
    stamps, with a time to live on every key. */
module RedisLimiter {
  import opened RateHistory
  import opened LocalLimiter

  const WINDOW_MS := 60000
  const TTL_SEC := 120

  datatype Key = ActorKey(actor: string) | GlobalKey

  /** The scores of each sorted set, in the order of arrival, and the keys' deadlines. */
  datatype Store = Store(zsets: map<Key, seq<real>>, deadlines: map<Key, real>)

  datatype MsRequest = MsRequest(actor: string, ms: nat)

  function Scores(s: Store, k: Key): seq<real> {
    if k in s.zsets then s.zsets[k] else []
  }

  /** ZREMRANGEBYSCORE key 0 cutoff */
  function RemoveUpTo(scores: seq<real>, cutoff: real): seq<real> {
    if scores == [] then []
    else if 0.0 <= scores[0] <= cutoff then RemoveUpTo(scores[1..], cutoff)
    else [scores[0]] + RemoveUpTo(scores[1..], cutoff)
  }

  /** A sorted set that becomes empty is deleted together with its deadline. */
  function Put(s: Store, k: Key, scores: seq<real>): Store {
    if scores == [] then Store(s.zsets - {k}, s.deadlines - {k}) else s.(zsets := s.zsets[k := scores])
  }

  function Expired(s: Store, now: real): set<Key> {
    set k | k in s.deadlines && s.deadlines[k] < now
  }

  function Reap(s: Store, now: real): Store {
    Store(s.zsets - Expired(s, now), s.deadlines - Expired(s, now))
  }

  /** The script's two range removals. */
  function Trim(s: Store, q: MsRequest): Store {
    var cutoff := q.ms as real - WINDOW_MS as real;
    var t := Put(s, ActorKey(q.actor), RemoveUpTo(Scores(s, ActorKey(q.actor)), cutoff));
    Put(t, GlobalKey, RemoveUpTo(Scores(t, GlobalKey), cutoff))
  }

  /** The script's two additions, and the new deadlines. */
  function Record(s: Store, q: MsRequest, expiring: bool): Store {
    var now := q.ms as real;
    var t := Put(s, ActorKey(q.actor), Scores(s, ActorKey(q.actor)) + [now]);
    var u := Put(t, GlobalKey, Scores(t, GlobalKey) + [now]);
    var deadline := now + 1000.0 * TTL_SEC as real;
    if expiring then u.(deadlines := u.deadlines[ActorKey(q.actor) := deadline][GlobalKey := deadline]) else u
  }

  function Aged(s: Store, now: real, expiring: bool): Store {
    if expiring then Reap(s, now) else s
  }

  function Judge(s: Store, q: MsRequest, actorLimit: int, globalLimit: int): int {
    if |Scores(s, ActorKey(q.actor))| >= actorLimit then 2 else if |Scores(s, GlobalKey)| >= globalLimit then 3 else 1
  }

  /** One evaluation of the script; with `expiring` false the keys would live for ever. */
  function Eval(store: Store, q: MsRequest, actorLimit: int, globalLimit: int, expiring: bool): (Store, int) {
    var s := Trim(Aged(store, q.ms as real, expiring), q);
    var code := Judge(s, q, actorLimit, globalLimit);
    (if code == 1 then Record(s, q, expiring) else s, code)
  }

  function VerdictOf(code: int): Verdict {
    if code == 2 then ActorQuota else if code == 3 then GlobalQuota else Admitted
  }

  function After(qs: seq<MsRequest>, actorLimit: int, globalLimit: int, expiring: bool): Store {
    if qs == [] then Store(map[], map[])
    else
      var s := After(qs[..|qs| - 1], actorLimit, globalLimit, expiring);
      Eval(s, qs[|qs| - 1], actorLimit, globalLimit, expiring).0
  }

  class RedisSlidingWindowRateLimiter {
    const actorLimit: int
    const globalLimit: int
    var zsets: map<Key, seq<real>>
    var deadlines: map<Key, real>

    constructor (actorRpm: int, actorBurst: int, globalRpm: int, globalBurst: int)
      ensures State() == Store(map[], map[])
      ensures actorLimit == actorRpm + actorBurst && globalLimit == globalRpm + globalBurst
    {
      actorLimit, globalLimit := actorRpm + actorBurst, globalRpm + globalBurst;
      zsets, deadlines := map[], map[];
    }

    ghost function State(): Store
      reads this
    {
      Store(zsets, deadlines)
    }

    method ZRemRangeByScore(k: Key, cutoff: real)
      modifies this
      ensures State() == Put(old(State()), k, RemoveUpTo(Scores(old(State()), k), cutoff))
    {
      var kept := RemoveUpTo(if k in zsets then zsets[k] else [], cutoff);
      if kept == [] {
        zsets, deadlines := zsets - {k}, deadlines - {k};
      } else {
        zsets := zsets[k := kept];
      }
    }

    method ZCard(k: Key) returns (n: nat)
      ensures n == |Scores(State(), k)|
    {
      n := if k in zsets then |zsets[k]| else 0;
    }

    method ZAdd(k: Key, score: real)
      modifies this
      ensures State() == Put(old(State()), k, Scores(old(State()), k) + [score])
    {
      zsets := zsets[k := (if k in zsets then zsets[k] else []) + [score]];
    }

    method Script(actor: string, nowMs: nat) returns (code: int)
      modifies this
      ensures (State(), code) == Eval(old(State()), MsRequest(actor, nowMs), actorLimit, globalLimit, true)
    {
      var now := nowMs as real;
      var cutoff := now - WINDOW_MS as real;
      var expired := set k | k in deadlines && deadlines[k] < now;
      zsets, deadlines := zsets - expired, deadlines - expired;
      ZRemRangeByScore(ActorKey(actor), cutoff);
      ZRemRangeByScore(GlobalKey, cutoff);
      var actorCount := ZCard(ActorKey(actor));
      if actorCount >= actorLimit {
        return 2;
      }
      var globalCount := ZCard(GlobalKey);
      if globalCount >= globalLimit {
        return 3;
      }
      ZAdd(ActorKey(actor), now);
      ZAdd(GlobalKey, now);
      var deadline := now + 1000.0 * TTL_SEC as real;
      deadlines := deadlines[ActorKey(actor) := deadline];
      deadlines := deadlines[GlobalKey := deadline];
      return 1;
    }

    /** The codes 2 and 3 raise; an unknown code cannot come from this script. */
    method Allow(actor: string, nowMs: nat) returns (verdict: Verdict)
      modifies this
      ensures var (s, code) := Eval(old(State()), MsRequest(actor, nowMs), actorLimit, globalLimit, true);
        State() == s && verdict == VerdictOf(code) && 1 <= code <= 3
    {
      var code := Script(actor, nowMs);
      verdict := if code == 2 then ActorQuota else if code == 3 then GlobalQuota else Admitted;
    }
  }

  // ------------------------------------------------------------ refinement

  function Stamped(q: MsRequest): Request {
    Request(q.actor, q.ms as real)
  }

  function Stamps(qs: seq<MsRequest>): seq<Request> {
    if qs == [] then [] else Stamps(qs[..|qs| - 1]) + [Stamped(qs[|qs| - 1])]
  }

  ghost predicate InOrder(qs: seq<MsRequest>) {
    forall i, j :: 0 <= i < j < |qs| ==> qs[i].ms <= qs[j].ms
  }

  /** On whole milliseconds, removing what is at most now - 60000 keeps the closed window
      of 59999 milliseconds. */
  function Limits(actorLimit: int, globalLimit: int): Policy {
    Policy(59999.0, actorLimit, globalLimit)
  }

  ghost predicate Whole(t: real) {
    t >= 0.0 && t.Floor as real == t
  }

  ghost predicate AllWhole(ts: seq<real>) {
    forall i :: 0 <= i < |ts| ==> Whole(ts[i])
  }

  lemma WholeEdge(t: real, cutoff: real)
    requires Whole(t) && cutoff.Floor as real == cutoff
    ensures t <= cutoff <==> t < cutoff + 1.0
  {
    var n, m := t.Floor, cutoff.Floor;
    assert n <= m <==> n < m + 1;
  }

  /** On sorted whole stamps the range removal is pruning from the front. */
  lemma {:induction false} RemoveIsDrop(scores: seq<real>, cutoff: real, now: real)
    requires Before(scores, now) && AllWhole(scores) && cutoff.Floor as real == cutoff
    ensures RemoveUpTo(scores, cutoff) == DropOld(scores, cutoff + 1.0)
  {
    if scores != [] {
      WholeEdge(scores[0], cutoff);
      if scores[0] <= cutoff {
        BeforeTail(scores, now);
        RemoveIsDrop(scores[1..], cutoff, now);
      } else {
        NothingRemoved(scores, cutoff);
      }
    }
  }

  lemma BeforeTail(scores: seq<real>, now: real)
    requires scores != [] && Before(scores, now) && AllWhole(scores)
    ensures Before(scores[1..], now) && AllWhole(scores[1..])
  {
  }

  lemma {:induction false} NothingRemoved(scores: seq<real>, cutoff: real)
    requires forall i :: 0 <= i < |scores| ==> scores[i] > cutoff
    ensures RemoveUpTo(scores, cutoff) == scores
  {
    if scores != [] {
      NothingRemoved(scores[1..], cutoff);
    }
  }

  function PartOf(h: seq<Request>, k: Key): seq<real> {
    match k case ActorKey(a) => TimesOf(h, a) case GlobalKey => Times(h)
  }

  /** A sorted set remembers its part of the history from the window's edge on. */
  ghost predicate SetOk(part: seq<real>, scores: seq<real>, now: real) {
    Remembers(part, scores, now - 59999.0) && Before(scores, now) && AllWhole(scores)
  }

  /** A key outlives its scores by two minutes. */
  ghost predicate DeadlineOk(s: Store, k: Key) {
    k in s.deadlines ==> Before(Scores(s, k), s.deadlines[k] - 120000.0)
  }

  ghost predicate KeyOk(s: Store, h: seq<Request>, k: Key, now: real) {
    SetOk(PartOf(h, k), Scores(s, k), now) && DeadlineOk(s, k)
  }

  ghost predicate StoreOk(s: Store, h: seq<Request>, now: real) {
    forall k: Key :: KeyOk(s, h, k, now)
  }

  lemma {:induction false} AllDropped(scores: seq<real>, latest: real, c: real)
    requires Before(scores, latest) && latest < c
    ensures DropOld(scores, c) == []
  {
    if scores != [] {
      AllDropped(scores[1..], latest, c);
    }
  }

  /** Time passing, and a key reaped at its deadline, are not noticed. */
  lemma AgedKeeps(s: Store, h: seq<Request>, k: Key, clock: real, now: real, expiring: bool)
    requires KeyOk(s, h, k, clock) && clock <= now
    ensures KeyOk(Aged(s, now, expiring), h, k, now)
  {
    var part, scores := PartOf(h, k), Scores(s, k);
    BeforeLater(scores, clock, now);
    if expiring && k in s.deadlines && s.deadlines[k] < now {
      var edge := now - 59999.0;
      forall c: real | c >= edge ensures DropOld([], c) == DropOld(part, c) {
        assert DropOld(scores, c) == DropOld(part, c);
        AllDropped(scores, s.deadlines[k] - 120000.0, c);
      }
    } else {
      assert Scores(Aged(s, now, expiring), k) == scores;
    }
  }

  lemma {:induction false} DropKeepsOrder(scores: seq<real>, c: real, now: real)
    requires Before(scores, now)
    ensures Before(DropOld(scores, c), now)
    ensures AllWhole(scores) ==> AllWhole(DropOld(scores, c))
  {
    if scores != [] && scores[0] < c {
      DropKeepsOrder(scores[1..], c, now);
    }
  }

  ghost predicate Touches(q: MsRequest, k: Key) {
    k == ActorKey(q.actor) || k == GlobalKey
  }

  lemma TrimEffect(s: Store, q: MsRequest, k: Key)
    ensures Scores(Trim(s, q), k) ==
      if Touches(q, k) then RemoveUpTo(Scores(s, k), q.ms as real - 60000.0) else Scores(s, k)
    ensures k in Trim(s, q).deadlines ==> k in s.deadlines && Trim(s, q).deadlines[k] == s.deadlines[k]
  {
  }

  lemma RecordEffect(s: Store, q: MsRequest, expiring: bool, k: Key)
    ensures Scores(Record(s, q, expiring), k) == if Touches(q, k) then Scores(s, k) + [q.ms as real] else Scores(s, k)
    ensures var t := Record(s, q, expiring);
      k in t.deadlines ==>
        if expiring && Touches(q, k) then t.deadlines[k] == q.ms as real + 120000.0
        else k in s.deadlines && t.deadlines[k] == s.deadlines[k]
  {
  }

  /** Trimming leaves exactly the window of the history. */
  lemma SetTrimmed(part: seq<real>, scores: seq<real>, now: real, latest: real)
    requires SetOk(part, scores, now) && Before(part, now) && now.Floor as real == now && Before(scores, latest)
    ensures var kept := RemoveUpTo(scores, now - 60000.0);
      SetOk(part, kept, now) && Before(kept, latest) && |kept| == CountBetween(part, now - 59999.0, now)
  {
    assert (now - 60000.0).Floor as real == now - 60000.0;
    var edge := now - 59999.0;
    assert RemoveUpTo(scores, now - 60000.0) == DropOld(scores, edge) by { RemoveIsDrop(scores, now - 60000.0, now); }
    DropKeepsOrder(scores, edge, now);
    DropKeepsOrder(scores, edge, latest);
    assert |DropOld(scores, edge)| == CountBetween(part, edge, now) by { DropCounts(part, edge, now); }
    PrunedRemembers(part, scores, edge, edge);
  }

  lemma KeyTrimmed(s: Store, t: Store, h: seq<Request>, k: Key, now: real)
    requires KeyOk(s, h, k, now) && Before(PartOf(h, k), now) && now.Floor as real == now
    requires Scores(t, k) == RemoveUpTo(Scores(s, k), now - 60000.0)
    requires k in t.deadlines ==> k in s.deadlines && t.deadlines[k] == s.deadlines[k]
    ensures KeyOk(t, h, k, now) && |Scores(t, k)| == CountBetween(PartOf(h, k), now - 59999.0, now)
  {
    SetTrimmed(PartOf(h, k), Scores(s, k), now, now);
    if k in t.deadlines {
      SetTrimmed(PartOf(h, k), Scores(s, k), now, s.deadlines[k] - 120000.0);
    }
  }

  lemma StoreTrimmed(s: Store, h: seq<Request>, q: MsRequest)
    requires StoreOk(s, h, q.ms as real) && Before(Times(h), q.ms as real)
    ensures StoreOk(Trim(s, q), h, q.ms as real)
    ensures forall k: Key :: Touches(q, k) ==>
      |Scores(Trim(s, q), k)| == CountBetween(PartOf(h, k), q.ms as real - 59999.0, q.ms as real)
  {
    forall k: Key
      ensures KeyOk(Trim(s, q), h, k, q.ms as real)
      ensures Touches(q, k) ==>
        |Scores(Trim(s, q), k)| == CountBetween(PartOf(h, k), q.ms as real - 59999.0, q.ms as real)
    {
      KeyAfterTrim(s, h, q, k);
    }
  }

  lemma KeyAfterTrim(s: Store, h: seq<Request>, q: MsRequest, k: Key)
    requires KeyOk(s, h, k, q.ms as real) && Before(Times(h), q.ms as real)
    ensures KeyOk(Trim(s, q), h, k, q.ms as real)
    ensures Touches(q, k) ==>
      |Scores(Trim(s, q), k)| == CountBetween(PartOf(h, k), q.ms as real - 59999.0, q.ms as real)
  {
    var now, t := q.ms as real, Trim(s, q);
    TrimEffect(s, q, k);
    if Touches(q, k) {
      PartsBefore(h, k, now);
      KeyTrimmed(s, t, h, k, now);
    } else {
      KeyUntouched(s, t, h, k, now);
    }
  }

  lemma KeyUntouched(s: Store, t: Store, h: seq<Request>, k: Key, now: real)
    requires KeyOk(s, h, k, now) && Scores(t, k) == Scores(s, k)
    requires k in t.deadlines ==> k in s.deadlines && t.deadlines[k] == s.deadlines[k]
    ensures KeyOk(t, h, k, now)
  {
  }

  lemma KeyRecorded(s: Store, t: Store, h: seq<Request>, k: Key, r: Request)
    requires KeyOk(s, h, k, r.at) && Whole(r.at)
    requires k == ActorKey(r.actor) || k == GlobalKey
    requires Scores(t, k) == Scores(s, k) + [r.at]
    requires k in t.deadlines ==> t.deadlines[k] == r.at + 120000.0
    ensures KeyOk(t, h + [r], k, r.at)
  {
    assert PartOf(h + [r], k) == PartOf(h, k) + [r.at] by { TimesAppend(h, r, r.actor); }
    AppendedRemembers(PartOf(h, k), Scores(s, k), r.at - 59999.0, r.at);
    BeforeAppend(Scores(s, k), r.at);
  }

  lemma StoreRecorded(s: Store, h: seq<Request>, q: MsRequest, expiring: bool)
    requires StoreOk(s, h, q.ms as real) && (!expiring ==> s.deadlines == map[])
    ensures StoreOk(Record(s, q, expiring), h + [Stamped(q)], q.ms as real)
    ensures !expiring ==> Record(s, q, expiring).deadlines == map[]
  {
    var t, r := Record(s, q, expiring), Stamped(q);
    forall k: Key ensures KeyOk(t, h + [r], k, r.at) {
      assert KeyOk(s, h, k, r.at);
      RecordEffect(s, q, expiring, k);
      if Touches(q, k) {
        KeyRecorded(s, t, h, k, r);
      } else {
        TimesAppend(h, r, k.actor);
      }
    }
  }

  lemma PartsBefore(h: seq<Request>, k: Key, now: real)
    requires Before(Times(h), now)
    ensures Before(PartOf(h, k), now)
  {
    if k.ActorKey? {
      PartBefore(h, k.actor, now);
    }
  }

  lemma StoreAged(s: Store, h: seq<Request>, clock: real, now: real, expiring: bool)
    requires StoreOk(s, h, clock) && clock <= now
    ensures StoreOk(Aged(s, now, expiring), h, now)
  {
    var t := Aged(s, now, expiring);
    forall k: Key ensures KeyOk(t, h, k, now) {
      assert KeyOk(s, h, k, clock);
      AgedKeeps(s, h, k, clock, now, expiring);
    }
  }

  lemma JudgeIsDecide(s: Store, h: seq<Request>, q: MsRequest, actorLimit: int, globalLimit: int)
    requires forall k: Key :: Touches(q, k) ==>
      |Scores(s, k)| == CountBetween(PartOf(h, k), q.ms as real - 59999.0, q.ms as real)
    ensures var code := Judge(s, q, actorLimit, globalLimit);
      1 <= code <= 3 && VerdictOf(code) == Decide(h, Stamped(q), Limits(actorLimit, globalLimit))
  {
    assert Touches(q, ActorKey(q.actor)) && Touches(q, GlobalKey);
  }

  /** One evaluation decides as the history does, whether keys expire or not. */
  lemma EvalRefines(s: Store, h: seq<Request>, clock: real, q: MsRequest, actorLimit: int, globalLimit: int,
                    expiring: bool)
    requires StoreOk(s, h, clock) && clock <= q.ms as real && Before(Times(h), q.ms as real)
    requires !expiring ==> s.deadlines == map[]
    ensures var (t, code) := Eval(s, q, actorLimit, globalLimit, expiring);
      var verdict := Decide(h, Stamped(q), Limits(actorLimit, globalLimit));
      && 1 <= code <= 3 && VerdictOf(code) == verdict
      && StoreOk(t, Extend(h, Stamped(q), verdict), q.ms as real)
      && (!expiring ==> t.deadlines == map[])
  {
    var aged := Aged(s, q.ms as real, expiring);
    StoreAged(s, h, clock, q.ms as real, expiring);
    StoreTrimmed(aged, h, q);
    JudgeIsDecide(Trim(aged, q), h, q, actorLimit, globalLimit);
    StoreRecorded(Trim(aged, q), h, q, expiring);
  }

  lemma InOrderFront(qs: seq<MsRequest>)
    requires InOrder(qs) && qs != []
    ensures InOrder(qs[..|qs| - 1])
    ensures |qs| >= 2 ==> qs[|qs| - 2].ms <= qs[|qs| - 1].ms
  {
  }

  function Clock(qs: seq<MsRequest>): real {
    if qs == [] then 0.0 else qs[|qs| - 1].ms as real
  }

  /** Along every run under a nondecreasing millisecond clock the store refines the
      history, whether keys expire or not. */
  lemma {:induction false} RunRefinesHistory(qs: seq<MsRequest>, actorLimit: int, globalLimit: int, expiring: bool)
    requires InOrder(qs)
    ensures RunOk(qs, actorLimit, globalLimit, expiring)
  {
    if qs == [] {
    } else {
      var front, q := qs[..|qs| - 1], qs[|qs| - 1];
      InOrderFront(qs);
      RunRefinesHistory(front, actorLimit, globalLimit, expiring);
      RequestRefines(front, q, actorLimit, globalLimit, expiring);
      assert Stamps(qs)[..|Stamps(qs)| - 1] == Stamps(front);
    }
  }

  /** The store after a run is the history's, and stays so. */
  ghost predicate RunOk(qs: seq<MsRequest>, actorLimit: int, globalLimit: int, expiring: bool) {
    var h, s := Admissions(Stamps(qs), Limits(actorLimit, globalLimit)), After(qs, actorLimit, globalLimit, expiring);
    StoreOk(s, h, Clock(qs)) && Before(Times(h), Clock(qs)) && (!expiring ==> s.deadlines == map[])
  }

  lemma RequestRefines(qs: seq<MsRequest>, q: MsRequest, actorLimit: int, globalLimit: int, expiring: bool)
    requires RunOk(qs, actorLimit, globalLimit, expiring) && Clock(qs) <= q.ms as real
    ensures var h := Admissions(Stamps(qs), Limits(actorLimit, globalLimit));
      var (t, code) := Eval(After(qs, actorLimit, globalLimit, expiring), q, actorLimit, globalLimit, expiring);
      var g := Extend(h, Stamped(q), Decide(h, Stamped(q), Limits(actorLimit, globalLimit)));
      && 1 <= code <= 3 && VerdictOf(code) == Decide(h, Stamped(q), Limits(actorLimit, globalLimit))
      && StoreOk(t, g, q.ms as real) && Before(Times(g), q.ms as real) && (!expiring ==> t.deadlines == map[])
  {
    var h := Admissions(Stamps(qs), Limits(actorLimit, globalLimit));
    BeforeLater(Times(h), Clock(qs), q.ms as real);
    EvalRefines(After(qs, actorLimit, globalLimit, expiring), h, Clock(qs), q, actorLimit, globalLimit, expiring);
    BeforeAppend(Times(h), q.ms as real);
    TimesAppend(h, Stamped(q), q.actor);
  }

  /** The two-minute expiry never changes a decision: after any run, the script answers as
      if keys lived for ever, and as the history demands. */
  lemma ExpiryIsInvisible(qs: seq<MsRequest>, q: MsRequest, actorLimit: int, globalLimit: int)
    requires InOrder(qs + [q])
    ensures var code := Eval(After(qs, actorLimit, globalLimit, true), q, actorLimit, globalLimit, true).1;
      && code == Eval(After(qs, actorLimit, globalLimit, false), q, actorLimit, globalLimit, false).1
      && var p := Limits(actorLimit, globalLimit); VerdictOf(code) == Decide(Admissions(Stamps(qs), p), Stamped(q), p)
    ensures CodeCounts(Admissions(Stamps(qs), Limits(actorLimit, globalLimit)), q, actorLimit, globalLimit,
                       Eval(After(qs, actorLimit, globalLimit, true), q, actorLimit, globalLimit, true).1)
  {
    InOrderFront(qs + [q]);
    assert (qs + [q])[..|qs|] == qs;
    assert Clock(qs) <= q.ms as real;
    RunRefinesHistory(qs, actorLimit, globalLimit, true);
    RunRefinesHistory(qs, actorLimit, globalLimit, false);
    RequestRefines(qs, q, actorLimit, globalLimit, true);
    RequestRefines(qs, q, actorLimit, globalLimit, false);
    VerdictCounts(Admissions(Stamps(qs), Limits(actorLimit, globalLimit)), q, actorLimit, globalLimit,
                  Eval(After(qs, actorLimit, globalLimit, true), q, actorLimit, globalLimit, true).1);
  }

  /** 2 and 3 say that the actor's or the global count of the last 59999 milliseconds has
      reached its limit, 1 that neither has. */
  ghost predicate CodeCounts(h: seq<Request>, q: MsRequest, actorLimit: int, globalLimit: int, code: int) {
    var mine, all := CountBetween(TimesOf(h, q.actor), q.ms as real - 59999.0, q.ms as real),
                     CountBetween(Times(h), q.ms as real - 59999.0, q.ms as real);
    code == if mine >= actorLimit then 2 else if all >= globalLimit then 3 else 1
  }

  lemma VerdictCounts(h: seq<Request>, q: MsRequest, actorLimit: int, globalLimit: int, code: int)
    requires 1 <= code <= 3 && VerdictOf(code) == Decide(h, Stamped(q), Limits(actorLimit, globalLimit))
    ensures CodeCounts(h, q, actorLimit, globalLimit, code)
  {
    DecisionCounts(h, Stamped(q), Limits(actorLimit, globalLimit));
  }

  // ------------------------------------------------------------ the keys' time to live

  /** A key has a deadline exactly when it is stored, two minutes after its latest score. */
  ghost predicate ExpiresInTime(s: Store, k: Key) {
    && (k in s.zsets <==> k in s.deadlines)
    && (k in s.zsets ==> s.zsets[k] != [] && s.deadlines[k] == s.zsets[k][|s.zsets[k]| - 1] + 120000.0)
  }

  lemma {:induction false} RemovalKeepsTheLast(scores: seq<real>, cutoff: real, now: real)
    requires Before(scores, now) && AllWhole(scores) && RemoveUpTo(scores, cutoff) != []
    ensures var rest := RemoveUpTo(scores, cutoff); rest[|rest| - 1] == scores[|scores| - 1]
  {
    if scores[0] <= cutoff {
      BeforeTail(scores, now);
      RemovalKeepsTheLast(scores[1..], cutoff, now);
    } else {
      NothingRemoved(scores, cutoff);
    }
  }

  lemma TrimExpires(s: Store, q: MsRequest, k: Key, now: real)
    requires ExpiresInTime(s, k) && Before(Scores(s, k), now) && AllWhole(Scores(s, k))
    ensures ExpiresInTime(Trim(s, q), k)
  {
    var cutoff := q.ms as real - 60000.0;
    var t := Put(s, ActorKey(q.actor), RemoveUpTo(Scores(s, ActorKey(q.actor)), cutoff));
    if k == GlobalKey {
      PutLeaves(s, ActorKey(q.actor), RemoveUpTo(Scores(s, ActorKey(q.actor)), cutoff), k);
      RemovalExpires(t, k, cutoff, now);
    } else {
      if k == ActorKey(q.actor) {
        RemovalExpires(s, k, cutoff, now);
      } else {
        PutLeaves(s, ActorKey(q.actor), RemoveUpTo(Scores(s, ActorKey(q.actor)), cutoff), k);
      }
      PutLeaves(t, GlobalKey, RemoveUpTo(Scores(t, GlobalKey), cutoff), k);
    }
  }

  lemma PutLeaves(s: Store, other: Key, scores: seq<real>, k: Key)
    requires other != k
    ensures var t := Put(s, other, scores);
      Scores(t, k) == Scores(s, k) && (ExpiresInTime(s, k) ==> ExpiresInTime(t, k))
  {
  }

  lemma RemovalExpires(s: Store, k: Key, cutoff: real, now: real)
    requires ExpiresInTime(s, k) && Before(Scores(s, k), now) && AllWhole(Scores(s, k))
    ensures ExpiresInTime(Put(s, k, RemoveUpTo(Scores(s, k), cutoff)), k)
  {
    if RemoveUpTo(Scores(s, k), cutoff) != [] {
      RemovalKeepsTheLast(Scores(s, k), cutoff, now);
    }
  }

  lemma RecordExpires(s: Store, q: MsRequest, k: Key)
    requires ExpiresInTime(s, k)
    ensures ExpiresInTime(Record(s, q, true), k)
  {
  }

  lemma EvalExpires(s: Store, q: MsRequest, actorLimit: int, globalLimit: int, k: Key, now: real)
    requires ExpiresInTime(s, k) && Before(Scores(s, k), now) && AllWhole(Scores(s, k))
    ensures ExpiresInTime(Eval(s, q, actorLimit, globalLimit, true).0, k)
  {
    var aged := Aged(s, q.ms as real, true);
    TrimExpires(aged, q, k, now);
    RecordExpires(Trim(aged, q), q, k);
  }

  /** After every run, every key expires two minutes after the last admission under it. */
  lemma {:induction false} KeysLiveTwoMinutes(qs: seq<MsRequest>, actorLimit: int, globalLimit: int, k: Key)
    requires InOrder(qs)
    ensures ExpiresInTime(After(qs, actorLimit, globalLimit, true), k)
  {
    if qs != [] {
      var front := qs[..|qs| - 1];
      InOrderFront(qs);
      KeysLiveTwoMinutes(front, actorLimit, globalLimit, k);
      RunRefinesHistory(front, actorLimit, globalLimit, true);
      var s := After(front, actorLimit, globalLimit, true);
      assert KeyOk(s, Admissions(Stamps(front), Limits(actorLimit, globalLimit)), k, Clock(front));
      EvalExpires(s, qs[|qs| - 1], actorLimit, globalLimit, k, Clock(front));
    }
  }
}
