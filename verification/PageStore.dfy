/** Generated dashboard pages, kept in memory under their request id until they expire.
    M is the type of the refresh metadata. */
module PageStore {
  import opened Text

  const MAX_TTL_SECONDS := 7 * 24 * 60 * 60
  const REFRESH_TTL := 900

  datatype Option<T> = None | Some(value: T)

  datatype Entry<M> = Entry(html: string, expires: real, metadata: Option<M>)

  type Pages<M> = map<string, Entry<M>>

  predicate IdChar(c: char) {
    'a' <= c <= 'z' || 'A' <= c <= 'Z' || '0' <= c <= '9' || c == '_' || c == '-'
  }

  /** The documented format of a request id. */
  predicate Documented(id: string) {
    1 <= |id| <= 255 && forall i :: 0 <= i < |id| ==> IdChar(id[i])
  }

  /** The pattern's `$` also matches before a final newline. */
  predicate ValidId(id: string) {
    Documented(id) || (id != "" && id[|id| - 1] == '\n' && Documented(id[..|id| - 1]))
  }

  /** An id that the documentation excludes and the check accepts. */
  lemma NewlineIsAccepted()
    ensures ValidId("a\n") && !Documented("a\n")
  {
    assert "a\n"[..1] == "a";
    assert "a\n"[1] == '\n';
  }

  /** Up to 255 characters, all of them letters, digits, hyphens and underscores, but for one
      newline that may come last. */
  lemma AcceptedIs(id: string)
    ensures ValidId(id) <==>
      exists core :: (id == core || id == core + "\n") && 1 <= |core| <= 255
        && forall i :: 0 <= i < |core| ==>
             'a' <= core[i] <= 'z' || 'A' <= core[i] <= 'Z' || '0' <= core[i] <= '9' || core[i] in "-_"
  {
    if ValidId(id) && !Documented(id) {
      assert id == id[..|id| - 1] + "\n";
    }
    if core :| id == core + "\n" && Documented(core) {
      assert id[..|id| - 1] == core;
    }
  }

  /** An accepted id has the documented format exactly when it does not end in a newline. */
  lemma AcceptedIsDocumentedIff(id: string)
    requires ValidId(id)
    ensures Documented(id) <==> id[|id| - 1] != '\n'
  {
    assert Documented(id) ==> IdChar(id[|id| - 1]);
  }

  predicate ValidPage(id: string, html: string, ttl: int) {
    !Blank(html) && 1 <= ttl <= MAX_TTL_SECONDS && ValidId(id)
  }

  function Cleaned<M>(pages: Pages<M>, now: real): Pages<M> {
    map id | id in pages && pages[id].expires > now :: pages[id]
  }

  function Registered<M>(pages: Pages<M>, id: string, html: string, ttl: int, metadata: Option<M>, now: real): Pages<M>
  {
    if ValidPage(id, html, ttl) then Cleaned(pages, now)[id := Entry(html, now + ttl as real, metadata)] else pages
  }

  function Found<M>(pages: Pages<M>, id: string, now: real): Option<Entry<M>> {
    if id in pages && pages[id].expires > now then Some(pages[id]) else None
  }

  function Looked<M>(pages: Pages<M>, id: string, now: real): Pages<M> {
    if ValidId(id) then Cleaned(pages, now) else pages
  }

  /** An invalid id raises; a missing or expired page, or a page without metadata, is None. */
  datatype Reply<T> = InvalidId | Missing | Present(value: T)

  function Lookup<M>(pages: Pages<M>, id: string, now: real): Reply<Entry<M>> {
    if !ValidId(id) then InvalidId
    else match Found(pages, id, now) case Some(entry) => Present(entry) case None => Missing
  }

  function HtmlOf<M>(r: Reply<Entry<M>>): Reply<string> {
    match r case Present(entry) => Present(entry.html) case Missing => Missing case InvalidId => InvalidId
  }

  function MetadataOf<M>(r: Reply<Entry<M>>): Reply<M> {
    match r
    case Present(entry) => (match entry.metadata case Some(m) => Present(m) case None => Missing)
    case Missing => Missing
    case InvalidId => InvalidId
  }

  /** The returned URL, or the first check that fails. */
  datatype Registration = Stored(url: string) | BlankHtml | TtlTooShort | TtlTooLong | BadId

  class DashboardPageStore<M> {
    const publicBaseUrl: string
    var pages: Pages<M>

    constructor (publicBaseUrl: string)
      ensures pages == map[] && this.publicBaseUrl == publicBaseUrl
    {
      this.publicBaseUrl := publicBaseUrl;
      pages := map[];
    }

    method CleanupExpired(now: real)
      modifies this
      ensures pages == Cleaned(old(pages), now)
    {
      var expired := set id | id in pages && pages[id].expires <= now;
      pages := pages - expired;
    }

    /** Invalid arguments raise before anything is purged or stored. */
    method Register(id: string, html: string, ttl: int, metadata: Option<M>, now: real) returns (r: Registration)
      modifies this
      ensures pages == Registered(old(pages), id, html, ttl, metadata, now)
      ensures r.Stored? <==> !Blank(html) && 1 <= ttl <= 604800 && ValidId(id)
      ensures r.Stored? ==> r.url == publicBaseUrl + "/diagnostics/dashboards/" + id
      ensures r.BlankHtml? ==> Blank(html)
      ensures r.TtlTooShort? ==> !Blank(html) && ttl < 1
      ensures r.TtlTooLong? ==> !Blank(html) && ttl > 604800
      ensures r.BadId? ==> !Blank(html) && 1 <= ttl <= 604800 && !ValidId(id)
    {
      if Blank(html) {
        return BlankHtml;
      }
      if ttl < 1 {
        return TtlTooShort;
      }
      if ttl > MAX_TTL_SECONDS {
        return TtlTooLong;
      }
      if !ValidId(id) {
        return BadId;
      }
      CleanupExpired(now);
      pages := pages[id := Entry(html, now + ttl as real, metadata)];
      return Stored(publicBaseUrl + "/diagnostics/dashboards/" + id);
    }

    method GetValidEntry(id: string, now: real) returns (entry: Reply<Entry<M>>)
      modifies this
      ensures pages == Looked(old(pages), id, now) && entry == Lookup(old(pages), id, now)
    {
      if !ValidId(id) {
        return InvalidId;
      }
      CleanupExpired(now);
      if id !in pages {
        return Missing;
      }
      // the code checks the expiry once more here; after the cleanup it cannot have passed
      assert pages[id].expires > now;
      return Present(pages[id]);
    }

    method GetPage(id: string, now: real) returns (html: Reply<string>)
      modifies this
      ensures pages == Looked(old(pages), id, now) && html == HtmlOf(Lookup(old(pages), id, now))
      ensures forall h :: html == Present(h) <==>
        ValidId(id) && id in old(pages) && old(pages)[id].expires > now && old(pages)[id].html == h
    {
      var entry := GetValidEntry(id, now);
      match entry {
        case Present(e) => html := Present(e.html);
        case Missing => html := Missing;
        case InvalidId => html := InvalidId;
      }
    }

    method GetMetadata(id: string, now: real) returns (metadata: Reply<M>)
      modifies this
      ensures pages == Looked(old(pages), id, now) && metadata == MetadataOf(Lookup(old(pages), id, now))
    {
      var entry := GetValidEntry(id, now);
      match entry {
        case Present(e) => metadata := if e.metadata.Some? then Present(e.metadata.value) else Missing;
        case Missing => metadata := Missing;
        case InvalidId => metadata := InvalidId;
      }
    }

    /** A refresh run alone: it fetches the metadata, renders (which may fail), and registers
        the page again with what it fetched. */
    method Refresh(id: string, renders: bool, html: string, fetchedAt: real, storedAt: real) returns (ok: bool)
      modifies this
      ensures var began := After(Store(old(pages), map[]), Begins(0, id, fetchedAt));
        && pages == (if renders then After(began, Ends(0, html, storedAt)) else began).pages
        && (ok <==> renders && 0 in began.refreshing && ValidPage(id, html, REFRESH_TTL))
    {
      var metadata := GetMetadata(id, fetchedAt);
      if !metadata.Present? || !renders {
        return false;
      }
      var r := Register(id, html, REFRESH_TTL, Some(metadata.value), storedAt);
      ok := r.Stored?;
    }
  }

  // ------------------------------------------------------------ runs

  /** A refresh is two operations, what it fetched being remembered under its number; others
      may come in between, and a refresh that fails never ends. */
  datatype Op<M> =
    | Registers(id: string, html: string, ttl: int, metadata: Option<M>, at: real)
    | Looks(id: string, at: real)
    | Begins(refresh: nat, id: string, at: real)
    | Ends(refresh: nat, html: string, at: real)

  datatype Fetched<M> = Fetched(id: string, metadata: M)

  datatype Store<M> = Store(pages: Pages<M>, refreshing: map<nat, Fetched<M>>)

  function After<M>(s: Store<M>, op: Op<M>): Store<M> {
    match op
    case Registers(id, html, ttl, metadata, at) => s.(pages := Registered(s.pages, id, html, ttl, metadata, at))
    case Looks(id, at) => s.(pages := Looked(s.pages, id, at))
    case Begins(r, id, at) =>
      Store(Looked(s.pages, id, at),
            match MetadataOf(Lookup(s.pages, id, at))
            case Present(m) => s.refreshing[r := Fetched(id, m)]
            case _ => s.refreshing - {r})
    case Ends(r, html, at) =>
      if r !in s.refreshing then s
      else
        var f := s.refreshing[r];
        Store(Registered(s.pages, f.id, html, REFRESH_TTL, Some(f.metadata), at), s.refreshing - {r})
  }

  function Run<M>(ops: seq<Op<M>>): Store<M> {
    if ops == [] then Store(map[], map[]) else After(Run(ops[..|ops| - 1]), ops[|ops| - 1])
  }

  /** The clock never goes back. */
  ghost predicate InOrder<M>(ops: seq<Op<M>>, now: real) {
    if ops == [] then true
    else ops[|ops| - 1].at <= now && InOrder(ops[..|ops| - 1], ops[|ops| - 1].at)
  }

  // ------------------------------------------------------------ history

  /** What was registered last under an id, by the operations alone: nothing expires and
      nothing is purged. */
  function LastRegistered<M>(ops: seq<Op<M>>, id: string): Option<Entry<M>>
    decreases |ops|, 0
  {
    if ops == [] then None
    else
      var front, before := ops[..|ops| - 1], LastRegistered(ops[..|ops| - 1], id);
      match ops[|ops| - 1]
      case Registers(other, html, ttl, metadata, at) =>
        if other == id && ValidPage(id, html, ttl) then Some(Entry(html, at + ttl as real, metadata)) else before
      case Ends(r, html, at) =>
        (match Pending(front, r)
         case Some(Fetched(other, m)) =>
           if other == id && ValidPage(id, html, REFRESH_TTL) then Some(Entry(html, at + REFRESH_TTL as real, Some(m)))
           else before
         case None => before)
      case _ => before
  }

  /** What refresh r has fetched and not yet registered again. */
  function Pending<M>(ops: seq<Op<M>>, r: nat): Option<Fetched<M>>
    decreases |ops|, 0
  {
    if ops == [] then None
    else
      var front := ops[..|ops| - 1];
      match ops[|ops| - 1]
      case Begins(other, id, at) =>
        if other != r then Pending(front, r)
        else if !ValidId(id) then None
        else
          var found := HistoryLookup(front, id, at);
          if found.Some? && found.value.metadata.Some? then Some(Fetched(id, found.value.metadata.value)) else None
      case Ends(other, _, _) => if other == r then None else Pending(front, r)
      case _ => Pending(front, r)
  }

  /** A lookup by the history alone. */
  function HistoryLookup<M>(ops: seq<Op<M>>, id: string, now: real): Option<Entry<M>>
    decreases |ops|, 1
  {
    var last := LastRegistered(ops, id);
    if last.Some? && last.value.expires > now then last else None
  }

  lemma CleanedFound<M>(pages: Pages<M>, id: string, at: real, now: real)
    requires at <= now
    ensures Found(Cleaned(pages, at), id, now) == Found(pages, id, now)
  {
  }

  lemma RegisteredFound<M>(pages: Pages<M>, id: string, html: string, ttl: int, metadata: Option<M>, at: real,
                           other: string, now: real)
    requires at <= now
    ensures Found(Registered(pages, id, html, ttl, metadata, at), other, now) ==
      if ValidPage(id, html, ttl) && id == other
      then (if at + ttl as real > now then Some(Entry(html, at + ttl as real, metadata)) else None)
      else Found(pages, other, now)
  {
    CleanedFound(pages, other, at, now);
  }

  lemma InOrderLater<M>(ops: seq<Op<M>>, earlier: real, now: real)
    requires InOrder(ops, earlier) && earlier <= now
    ensures InOrder(ops, now)
  {
  }

  /** Purging is invisible: whatever other operations purged, a lookup finds the page
      registered last under its id exactly until that page's own expiry. */
  lemma {:induction false} PurgingIsInvisible<M>(ops: seq<Op<M>>, id: string, now: real)
    requires InOrder(ops, now)
    ensures Found(Run(ops).pages, id, now) == HistoryLookup(ops, id, now)
    decreases |ops|, 1
  {
    if ops != [] {
      var front, op := ops[..|ops| - 1], ops[|ops| - 1];
      var s := Run(front);
      InOrderLater(front, op.at, now);
      PurgingIsInvisible(front, id, now);
      match op {
        case Registers(other, html, ttl, metadata, at) =>
          RegisteredFound(s.pages, other, html, ttl, metadata, at, id, now);
        case Looks(_, at) => CleanedFound(s.pages, id, at, now);
        case Begins(_, _, at) => CleanedFound(s.pages, id, at, now);
        case Ends(r, html, at) =>
          FetchesAreRemembered(front, r, at);
          if r in s.refreshing {
            var f := s.refreshing[r];
            RegisteredFound(s.pages, f.id, html, REFRESH_TTL, Some(f.metadata), at, id, now);
          }
      }
    }
  }

  /** The page registered last under the id, and not expired. */
  ghost predicate LivesOn<M>(ops: seq<Op<M>>, id: string, now: real) {
    LastRegistered(ops, id).Some? && LastRegistered(ops, id).value.expires > now
  }

  /** What the getters return after any run: an invalid id raises, an id whose last page has
      expired or that has none gives nothing, and otherwise it is that page's own html and
      its own metadata, if it has any. */
  lemma GettersReturn<M>(ops: seq<Op<M>>, id: string, now: real)
    requires InOrder(ops, now)
    ensures var found := Lookup(Run(ops).pages, id, now);
      var html, metadata, last := HtmlOf(found), MetadataOf(found), LastRegistered(ops, id);
      && (html == InvalidId <==> !ValidId(id)) && (metadata == InvalidId <==> !ValidId(id))
      && (ValidId(id) ==>
            && (forall h :: html == Present(h) <==> LivesOn(ops, id, now) && last.value.html == h)
            && (html == Missing <==> !LivesOn(ops, id, now))
            && (forall m :: metadata == Present(m) <==> LivesOn(ops, id, now) && last.value.metadata == Some(m))
            && (metadata == Missing <==> !LivesOn(ops, id, now) || last.value.metadata == None))
  {
    PurgingIsInvisible(ops, id, now);
  }

  /** When an operation purges: a registration or lookup with valid arguments does. */
  ghost predicate Purges<M>(ops: seq<Op<M>>)
    requires ops != []
  {
    match ops[|ops| - 1]
    case Registers(id, html, ttl, _, _) => ValidPage(id, html, ttl)
    case Looks(id, _) => ValidId(id)
    case Begins(_, id, _) => ValidId(id)
    case Ends(_, _, _) => false
  }

  /** Purging does its work: after such an operation the store holds exactly the pages that
      are live by the history, so nothing expired is kept. */
  lemma StoresExactlyTheLive<M>(ops: seq<Op<M>>, id: string)
    requires ops != [] && Purges(ops) && InOrder(ops, ops[|ops| - 1].at)
    ensures id in Run(ops).pages <==> LivesOn(ops, id, ops[|ops| - 1].at)
  {
    var now := ops[|ops| - 1].at;
    PurgingIsInvisible(ops, id, now);
    if id in Run(ops).pages {
      OnlyUnexpired(ops, id);
    }
  }

  lemma OnlyUnexpired<M>(ops: seq<Op<M>>, id: string)
    requires ops != [] && Purges(ops) && id in Run(ops).pages
    ensures Run(ops).pages[id].expires > ops[|ops| - 1].at
  {
  }

  /** What the running refreshes hold is what the history says they fetched. */
  lemma {:induction false} FetchesAreRemembered<M>(ops: seq<Op<M>>, r: nat, now: real)
    requires InOrder(ops, now)
    ensures Pending(ops, r) == if r in Run(ops).refreshing then Some(Run(ops).refreshing[r]) else None
    decreases |ops|, 0
  {
    if ops != [] {
      var front, op := ops[..|ops| - 1], ops[|ops| - 1];
      FetchesAreRemembered(front, r, op.at);
      if op.Begins? && op.refresh == r {
        PurgingIsInvisible(front, op.id, op.at);
      }
    }
  }

  /** From some registration on, the id is only looked up or refreshed. */
  ghost predicate OnlyRefreshed<M>(more: seq<Op<M>>, id: string) {
    forall i :: 0 <= i < |more| && more[i].Registers? ==> more[i].id != id
  }

  /** No refresh of this id is still running with other metadata than the page gets. */
  ghost predicate NoneStale<M>(ops: seq<Op<M>>, id: string, metadata: Option<M>) {
    forall r: nat :: NotStale(ops, r, id, metadata)
  }

  ghost predicate NotStale<M>(ops: seq<Op<M>>, r: nat, id: string, metadata: Option<M>) {
    Pending(ops, r).Some? && Pending(ops, r).value.id == id ==> Some(Pending(ops, r).value.metadata) == metadata
  }

  ghost predicate FoundWith<M>(ops: seq<Op<M>>, id: string, now: real, metadata: Option<M>) {
    var found := Found(Run(ops).pages, id, now);
    found.Some? ==> found.value.metadata == metadata
  }

  ghost predicate KeepsMetadata<M(!new)>(ops: seq<Op<M>>, id: string, metadata: Option<M>) {
    forall more: seq<Op<M>>, now: real :: OnlyRefreshed(more, id) && InOrder(ops + more, now) ==>
      FoundWith(ops + more, id, now, metadata)
  }

  /** However often a page is refreshed, and whatever happens to other pages and between the
      two halves of a refresh, its metadata stay those of its registration, if and only if no
      refresh that began before that registration still holds other metadata. */
  lemma RefreshKeepsMetadata<M(!new)>(ops: seq<Op<M>>, op: Op<M>)
    requires op.Registers? && ValidPage(op.id, op.html, op.ttl) && InOrder(ops + [op], op.at)
    ensures KeepsMetadata(ops + [op], op.id, op.metadata) <==> NoneStale(ops, op.id, op.metadata)
  {
    var registered := ops + [op];
    assert registered[..|ops|] == ops;
    if NoneStale(ops, op.id, op.metadata) {
      forall r: nat ensures NotStale(registered, r, op.id, op.metadata) {
        assert NotStale(ops, r, op.id, op.metadata);
      }
      forall more: seq<Op<M>>, now: real | OnlyRefreshed(more, op.id) && InOrder(registered + more, now)
        ensures FoundWith(registered + more, op.id, now, op.metadata)
      {
        PurgingIsInvisible(registered + more, op.id, now);
        MetadataStay(registered, more, op.id, op.metadata);
      }
    } else {
      var r: nat :| !NotStale(ops, r, op.id, op.metadata);
      StaleRefreshReverts(ops, op, r);
    }
  }

  /** Along refreshes alone, the last registration and all running refreshes keep the
      metadata. */
  lemma {:induction false} MetadataStay<M>(ops: seq<Op<M>>, more: seq<Op<M>>, id: string, metadata: Option<M>)
    requires LastRegistered(ops, id).Some? && LastRegistered(ops, id).value.metadata == metadata
    requires NoneStale(ops, id, metadata) && OnlyRefreshed(more, id)
    ensures LastRegistered(ops + more, id).Some? && LastRegistered(ops + more, id).value.metadata == metadata
    ensures NoneStale(ops + more, id, metadata)
  {
    if more == [] {
      assert ops + more == ops;
    } else {
      var front, op := more[..|more| - 1], more[|more| - 1];
      MetadataStay(ops, front, id, metadata);
      assert (ops + more)[..|ops + more| - 1] == ops + front;
      if op.Ends? {
        assert NotStale(ops + front, op.refresh, id, metadata);
      }
      forall r: nat ensures NotStale(ops + more, r, id, metadata) {
        assert NotStale(ops + front, r, id, metadata);
      }
    }
  }

  /** A refresh that began earlier puts its old metadata back. */
  lemma StaleRefreshReverts<M(!new)>(ops: seq<Op<M>>, op: Op<M>, r: nat)
    requires op.Registers? && ValidPage(op.id, op.html, op.ttl) && InOrder(ops + [op], op.at)
    requires !NotStale(ops, r, op.id, op.metadata)
    ensures !KeepsMetadata(ops + [op], op.id, op.metadata)
  {
    var registered, ending: Op<M> := ops + [op], Ends(r, "x", op.at);
    var all := registered + [ending];
    assert registered[..|ops|] == ops && all[..|registered|] == registered;
    assert Pending(registered, r) == Pending(ops, r);
    assert ValidPage(op.id, "x", REFRESH_TTL) by {
      assert !IsSpace("x"[0]);
    }
    PurgingIsInvisible(all, op.id, op.at);
    assert !FoundWith(all, op.id, op.at, op.metadata);
    assert OnlyRefreshed([ending], op.id);
  }

  // ------------------------------------------------------------ what a registration can rely on

  ghost predicate ValidRegistration<M>(op: Op<M>, id: string) {
    op.Registers? && op.id == id && ValidPage(id, op.html, op.ttl)
  }

  /** Every page registered under the id so far carried these metadata, or none. */
  ghost predicate SameMetadata<M>(ops: seq<Op<M>>, id: string, metadata: Option<M>) {
    forall i :: 0 <= i < |ops| && ValidRegistration(ops[i], id) ==>
      ops[i].metadata == None || ops[i].metadata == metadata
  }

  ghost predicate ComesFrom<M>(ops: seq<Op<M>>, id: string, m: M) {
    exists i :: 0 <= i < |ops| && ValidRegistration(ops[i], id) && ops[i].metadata == Some(m)
  }

  ghost predicate PageComesFrom<M>(ops: seq<Op<M>>, id: string) {
    var last := LastRegistered(ops, id);
    last.Some? && last.value.metadata.Some? ==> ComesFrom(ops, id, last.value.metadata.value)
  }

  ghost predicate FetchComesFrom<M>(ops: seq<Op<M>>, r: nat) {
    var pending := Pending(ops, r);
    pending.Some? ==> ComesFrom(ops, pending.value.id, pending.value.metadata)
  }

  lemma ComesFromFront<M>(ops: seq<Op<M>>, id: string, m: M)
    requires ops != [] && ComesFrom(ops[..|ops| - 1], id, m)
    ensures ComesFrom(ops, id, m)
  {
    var front := ops[..|ops| - 1];
    var i :| 0 <= i < |front| && ValidRegistration(front[i], id) && front[i].metadata == Some(m);
    assert ops[i] == front[i];
  }

  /** Refreshes invent no metadata: a page's come from a registration under its own id. */
  lemma {:induction false} MetadataComeFrom<M>(ops: seq<Op<M>>, id: string)
    ensures PageComesFrom(ops, id)
    decreases |ops|, 0
  {
    if ops != [] {
      var front, op := ops[..|ops| - 1], ops[|ops| - 1];
      MetadataComeFrom(front, id);
      if op.Ends? {
        FetchesComeFrom(front, op.refresh);
      }
      var last := LastRegistered(ops, id);
      if last.Some? && last.value.metadata.Some? {
        var m := last.value.metadata.value;
        if ValidRegistration(op, id) {
          assert ops[|ops| - 1].metadata == Some(m);
        } else {
          ComesFromFront(ops, id, m);
        }
      }
    }
  }

  lemma {:induction false} FetchesComeFrom<M>(ops: seq<Op<M>>, r: nat)
    ensures FetchComesFrom(ops, r)
    decreases |ops|, 0
  {
    if ops != [] && Pending(ops, r).Some? {
      var front, op := ops[..|ops| - 1], ops[|ops| - 1];
      FetchesComeFrom(front, r);
      if op.Begins? && op.refresh == r {
        MetadataComeFrom(front, op.id);
        var found := HistoryLookup(front, op.id, op.at);
        assert found.Some? && found == LastRegistered(front, op.id);
      } else {
        assert Pending(ops, r) == Pending(front, r);
      }
      ComesFromFront(ops, Pending(ops, r).value.id, Pending(ops, r).value.metadata);
    }
  }

  lemma SameMetadataIsNotStale<M>(ops: seq<Op<M>>, id: string, metadata: Option<M>)
    requires SameMetadata(ops, id, metadata)
    ensures NoneStale(ops, id, metadata)
  {
    forall r: nat ensures NotStale(ops, r, id, metadata) {
      FetchesComeFrom(ops, r);
    }
  }

  /** A page under a fresh id keeps its metadata, whatever the rest of the run does: the
      server draws a new id for every page, so its pages all do. */
  lemma FreshIdKeepsMetadata<M(!new)>(ops: seq<Op<M>>, op: Op<M>)
    requires op.Registers? && ValidPage(op.id, op.html, op.ttl) && InOrder(ops + [op], op.at)
    requires forall i :: 0 <= i < |ops| ==> !ValidRegistration(ops[i], op.id)
    ensures KeepsMetadata(ops + [op], op.id, op.metadata)
  {
    SameMetadataIsNotStale(ops, op.id, op.metadata);
    RefreshKeepsMetadata(ops, op);
  }

  /** The registrations under one id. */
  function Registrations<M>(ops: seq<Op<M>>, id: string): seq<Op<M>> {
    if ops == [] then []
    else
      var op := ops[|ops| - 1];
      Registrations(ops[..|ops| - 1], id) + if op.Registers? && op.id == id then [op] else []
  }

  lemma {:induction false} RegistrationsAppend<M>(a: seq<Op<M>>, b: seq<Op<M>>, id: string)
    ensures Registrations(a + b, id) == Registrations(a, id) + Registrations(b, id)
  {
    if b == [] {
      assert a + b == a;
    } else {
      RegistrationsAppend(a, b[..|b| - 1], id);
      assert (a + b)[..|a + b| - 1] == a + b[..|b| - 1];
    }
  }

  lemma {:induction false} RegistrationsAre<M>(ops: seq<Op<M>>, id: string, op: Op<M>)
    ensures op in Registrations(ops, id) <==> op in ops && op.Registers? && op.id == id
  {
    if ops != [] {
      RegistrationsAre(ops[..|ops| - 1], id, op);
      assert ops == ops[..|ops| - 1] + [ops[|ops| - 1]];
    }
  }

  /** The same pages were registered under the id, so whoever registers cannot tell the two
      histories apart. */
  lemma SameRegistrationsSameMetadata<M>(ops: seq<Op<M>>, others: seq<Op<M>>, id: string, metadata: Option<M>)
    requires Registrations(others, id) == Registrations(ops, id) && SameMetadata(ops, id, metadata)
    ensures SameMetadata(others, id, metadata)
  {
    forall i | 0 <= i < |others| && ValidRegistration(others[i], id)
      ensures others[i].metadata == None || others[i].metadata == metadata
    {
      RegistrationsAre(others, id, others[i]);
      RegistrationsAre(ops, id, others[i]);
      assert others[i] in others;
      var j :| 0 <= j < |ops| && ops[j] == others[i];
    }
  }

  ghost predicate AlwaysKeeps<M(!new)>(ops: seq<Op<M>>, op: Op<M>)
    requires op.Registers?
  {
    forall others: seq<Op<M>> ::
      Registrations(others, op.id) == Registrations(ops, op.id) && InOrder(others + [op], op.at) ==>
        KeepsMetadata(others + [op], op.id, op.metadata)
  }

  /** A registration keeps its metadata in every history with the same registrations of its
      id, whatever refreshes were under way, if and only if each of those carried the same
      metadata or none. */
  lemma AlwaysKeepsIff<M(!new)>(ops: seq<Op<M>>, op: Op<M>)
    requires op.Registers? && ValidPage(op.id, op.html, op.ttl) && InOrder(ops + [op], op.at)
    ensures AlwaysKeeps(ops, op) <==> SameMetadata(ops, op.id, op.metadata)
  {
    if SameMetadata(ops, op.id, op.metadata) {
      forall others: seq<Op<M>> |
        Registrations(others, op.id) == Registrations(ops, op.id) && InOrder(others + [op], op.at)
        ensures KeepsMetadata(others + [op], op.id, op.metadata)
      {
        SameRegistrationsSameMetadata(ops, others, op.id, op.metadata);
        SameMetadataIsNotStale(others, op.id, op.metadata);
        RefreshKeepsMetadata(others, op);
      }
    } else {
      var j :| 0 <= j < |ops| && ValidRegistration(ops[j], op.id)
        && ops[j].metadata != None && ops[j].metadata != op.metadata;
      var others, r := RefreshInBetween(ops, op, j);
      RefreshKeepsMetadata(others, op);
      assert !NotStale(others, r, op.id, op.metadata);
    }
  }

  /** A number above those of all refreshes. */
  function Unused<M>(ops: seq<Op<M>>): (r: nat)
    ensures forall i :: 0 <= i < |ops| && (ops[i].Begins? || ops[i].Ends?) ==> ops[i].refresh < r
  {
    if ops == [] then 0
    else
      var r, op := Unused(ops[..|ops| - 1]), ops[|ops| - 1];
      if (op.Begins? || op.Ends?) && op.refresh >= r then op.refresh + 1 else r
  }

  /** The same history with a refresh that begins right after registration j and is still
      under way at the end. */
  lemma RefreshInBetween<M>(ops: seq<Op<M>>, op: Op<M>, j: nat) returns (others: seq<Op<M>>, r: nat)
    requires op.Registers? && InOrder(ops + [op], op.at)
    requires j < |ops| && ValidRegistration(ops[j], op.id) && ops[j].metadata.Some?
    ensures Registrations(others, op.id) == Registrations(ops, op.id) && InOrder(others + [op], op.at)
    ensures Pending(others, r) == Some(Fetched(op.id, ops[j].metadata.value))
  {
    var before, after := ops[..j + 1], ops[j + 1..];
    r := Unused(ops);
    var begin := Begins(r, op.id, ops[j].at);
    others := before + [begin] + after;
    assert ops == before + after;
    InsertRegistersNothing(before, begin, after, op.id);
    assert InOrder(others + [op], op.at) by {
      assert before + (after + [op]) == ops + [op];
      InsertInOrder(before, begin, after + [op], op.at);
      assert before + [begin] + (after + [op]) == others + [op];
    }
    BeginsRightAfter(before, begin);
    assert forall i :: 0 <= i < |after| ==> after[i] == ops[i + j + 1];
    PendingStays(before + [begin], after, r);
  }

  lemma InsertRegistersNothing<M>(before: seq<Op<M>>, begin: Op<M>, after: seq<Op<M>>, id: string)
    requires begin.Begins?
    ensures Registrations(before + [begin] + after, id) == Registrations(before + after, id)
  {
    RegistrationsAppend(before, after, id);
    RegistrationsAppend(before + [begin], after, id);
    assert (before + [begin])[..|before|] == before;
  }

  lemma BeginsRightAfter<M>(before: seq<Op<M>>, begin: Op<M>)
    requires before != [] && begin.Begins? && ValidRegistration(before[|before| - 1], begin.id)
    requires begin.at == before[|before| - 1].at && before[|before| - 1].metadata.Some?
    ensures Pending(before + [begin], begin.refresh) == Some(Fetched(begin.id, before[|before| - 1].metadata.value))
  {
    var last := before[|before| - 1];
    assert HistoryLookup(before, begin.id, begin.at)
        == Some(Entry(last.html, last.at + last.ttl as real, last.metadata));
    assert (before + [begin])[..|before|] == before;
  }

  lemma {:induction false} PendingStays<M>(ops: seq<Op<M>>, more: seq<Op<M>>, r: nat)
    requires forall i :: 0 <= i < |more| && (more[i].Begins? || more[i].Ends?) ==> more[i].refresh != r
    ensures Pending(ops + more, r) == Pending(ops, r)
  {
    if more == [] {
      assert ops + more == ops;
    } else {
      PendingStays(ops, more[..|more| - 1], r);
      assert (ops + more)[..|ops + more| - 1] == ops + more[..|more| - 1];
    }
  }

  lemma {:induction false} InsertInOrder<M>(before: seq<Op<M>>, op: Op<M>, after: seq<Op<M>>, now: real)
    requires before != [] && op.at == before[|before| - 1].at && InOrder(before + after, now)
    ensures InOrder(before + [op] + after, now)
  {
    var all := before + [op] + after;
    if after == [] {
      assert before + after == before;
      assert InOrder(before, op.at);
      assert all[..|all| - 1] == before && all[|all| - 1] == op;
    } else {
      var last := |after| - 1;
      assert (before + after)[..|before + after| - 1] == before + after[..last];
      InsertInOrder(before, op, after[..last], after[last].at);
      assert all[..|all| - 1] == before + [op] + after[..last] && all[|all| - 1] == after[last];
    }
  }

  /** A page registered at 0, a refresh of it begun at 1, the page registered anew at 2: when
      the refresh ends at 3 the page has the old metadata again. */
  lemma StaleRefreshExample()
    ensures var ops: seq<Op<int>> := [Registers("d", "x", 900, Some(1), 0.0)] + [Begins(0, "d", 1.0)]
        + [Registers("d", "x", 900, Some(2), 2.0)] + [Ends(0, "x", 3.0)];
      InOrder(ops, 3.0) && Found(Run(ops).pages, "d", 3.0) == Some(Entry("x", 903.0, Some(1)))
  {
    var a: seq<Op<int>> := [Registers("d", "x", 900, Some(1), 0.0)];
    var b := a + [Begins(0, "d", 1.0)];
    var c := b + [Registers("d", "x", 900, Some(2), 2.0)];
    var d := c + [Ends(0, "x", 3.0)];
    assert a[..0] == [] && b[..1] == a && c[..2] == b && d[..3] == c;
    assert ValidPage("d", "x", 900) by {
      assert !IsSpace("x"[0]);
    }
    assert LastRegistered(a, "d") == Some(Entry("x", 900.0, Some(1)));
    assert Pending(b, 0) == Some(Fetched("d", 1));
    assert Pending(c, 0) == Some(Fetched("d", 1));
    assert LastRegistered(d, "d") == Some(Entry("x", 903.0, Some(1)));
    assert InOrder(a, 1.0) && InOrder(b, 2.0) && InOrder(c, 3.0);
    PurgingIsInvisible(d, "d", 3.0);
  }
}
