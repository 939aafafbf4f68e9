# Verified model of the MCP SQL server's stateful core

The server answers read requests on SQL Server instances. This project models the parts of it
that keep state, and proves what they promise over whole runs:

- **Connection pool** (`Pool`, `PoolProtocol`, `PoolLeaks`, `PoolSize`, `PoolOvershoot`,
  `ConnectionManager`, `PoolRefinement`, `PoolProgress`).
  `Pool.dfy` says what each lock-protected block does to the pool record. `PoolProtocol.dfy` interleaves any
  number of callers at the granularity of those blocks and of the effects between them; a run is any
  list of scheduling choices. `ConnectionManager.dfy` is the class run by one caller, proved against functions
  built from the same blocks, and `PoolRefinement.dfy` shows that such a call is a run of the protocol.
  `PoolLeaks.dfy` follows the physical connections; `PoolSize.dfy` and `PoolOvershoot.dfy` bound the pool's size;
  `PoolProgress.dfy` shows that nobody is ever stuck.
- **Rate limiters** (`RateHistory`, `LocalLimiter`, `RedisLimiter`, `LimiterComparison`).
  `RateHistory.dfy` is the specification: it stores the admissions and counts them. Both limiters refine it.
- **Column names and row dictionaries** (`Columns`, `ColumnNaming`, `Decimals`, `Text`).
- **Graphs** (`Paths`, `Orders`, `FkGraph`, `Blocking`): foreign-key cycles, depth of a blocking chain, head blockers.
- **Expiring maps** (`Sessions`, `PageStore`): session manager and dashboard page store, against their history.
- **Request gate** (`Gate`, `GateProtocol`, `GateAnswers`): the read tools' checks in front of the pool, composed from the modules
  above. `Gate.dfy` is the class run by one call; `GateProtocol.dfy` interleaves any number of calls at their
  suspensions, the progress messages, any of which may fail, while others use the pool.
  `GateAnswers.dfy` says what a call answers, in terms of the call and of what it meets.

Objects that the program updates in place are classes whose methods are proved equal to a function of the
old state; the lemmas speak about those functions and about runs of them.

Assumptions, all visible in the contracts: clocks are passed as arguments and do not go back (stated
as a hypothesis where a theorem needs it, in the order of the lock that the reading precedes); a connect
yields a fresh identity or fails; a closed connection never passes a probe; authorisation, the write guard's verdict, the server's behaviour and the
classification of errors are inputs; digits are ASCII.

Where the code says something else than one would expect, the model follows the code:

- The pool is described as bounded by its configured cap. Nothing is reserved before the unlocked connect, so
  overlapping creations exceed it. It stays within its cap in every run exactly when there are no more callers than
  the cap (`CapHoldsIff`); otherwise its greatest size, with n creations overlapping, is the smaller of the number
  of callers and cap - 1 + n (`OvershootIsExact`). That needs a driver that refuses autocommit on a closed
  connection (`BoundNeedsTheDriver`), as pyodbc does.
- Request ids are described as alphanumerics, hyphen and underscore only; the pattern also accepts one final newline
  (`NewlineIsAccepted`), and nothing else (`AcceptedIsDocumentedIff`).
- A session's lifetime is min(ttl, idle) since its last touch, there being only one stored time: the ttl bounds the age
  of sessions exactly when no session outlives an instant or none fits (`TtlBoundsAgeIff`, `TouchedSessionOutlivesTtl`).
- Tables that share a node name `schema.table` are confused, so that a table on no cycle can be reported. The report is
  exact for all tables of some schemas if and only if no schema continues another one after a dot
  (`ExactIffSchemasApart`, `SharedNameIsReported`).
- Negative blocker ids leave a blocked session without any head blocker (`HeadsAreComplete`, `OrphanedBlockerHasNoHead`).
- A refresh that began before its page was registered anew puts the old metadata back (`StaleRefreshExample`,
  `RefreshKeepsMetadata`). Whoever registers a page is safe from that, whatever refreshes are under way, exactly when
  every earlier registration of the id carried the same metadata or none (`AlwaysKeepsIff`); a fresh id is therefore
  safe (`FreshIdKeepsMetadata`), and the server draws one for every page.

## Model

| member | source | states |
|---|---|---|
| PoolProtocol.NoLostWakeUp | src/db/connection_manager.py:133-168 | in every reachable interleaving a caller is parked only while the pool is full and at least pool_max others (and at least one) own its connections; when it is not full, every waiting caller's next attempt gets or creates a connection; a timeout is raised only when full |
| PoolProtocol.ExclusiveOwnership | src/db/connection_manager.py:134-219 | idle and in-use lists are duplicate-free and disjoint, no two callers hold one connection, a held connection is not idle, the idle list is within the cap |
| PoolProtocol.RaisedNeverHandedOut | src/db/connection_manager.py:192-239 | a connection whose user raised is never idle nor handed out again, whatever the rest of the run does |
| PoolProtocol.Conservation | src/db/connection_manager.py:161-219 | created_total equals idle + in use + discarded_total + idle ones thrown away at shutdown + those still with an overtaken caller, after every step of every run |
| PoolProtocol.ConservationBeforeShutdown | src/db/connection_manager.py:161-219 | without close_all_pools, created_total = pool size + discarded_total |
| PoolSize.SizeBound | src/db/connection_manager.py:143-178 | with at most n callers ever in the creation window, size + pending creations is at most cap - 1 + n, plus re-admissions after a shutdown; none with a driver that refuses autocommit on closed connections |
| PoolSize.CallersBound | src/db/connection_manager.py:133-219 | in every run the listed connections, those that a shutdown took from their holders and those being created number at most the callers, whatever the driver does |
| PoolLeaks.NoLeak | src/db/connection_manager.py:158-223 | every physical connection ever made is idle, carried by a caller or closed |
| PoolLeaks.ClosedIffDropped | src/db/connection_manager.py:258-267 | with a refusing driver a connection is closed under its holder exactly when close_all_pools dropped it |
| PoolProtocol.InvHolds | src/db/connection_manager.py:122-267 | the protocol's whole invariant holds after every run |
| PoolProtocol.NoNewOrphans | src/db/connection_manager.py:258-267 | only close_all_pools can drop a connection from under its user |
| PoolOvershoot.OvershootIsReached | src/db/connection_manager.py:143-178 | for every cap, any number of callers and any number n of overlapping creations some run lists min(callers, cap - 1 + n) connections |
| PoolOvershoot.OvershootIsExact | src/db/connection_manager.py:143-178 | with a refusing driver that number is the exact bound of all such runs |
| PoolOvershoot.CapHoldsIff | src/db/connection_manager.py:143-178 | the pool stays within pool_max (1 if that is less) in every run if and only if there are no more callers |
| PoolOvershoot.LateReleaseOverfills | src/db/connection_manager.py:192-215 | under a driver that, unlike pyodbc, accepts autocommit on a closed connection, a release overtaken by close_all_pools overfills the pool without any overlap |
| PoolOvershoot.BoundNeedsTheDriver | src/db/connection_manager.py:203-215 | the size bound holds of every run if and only if the driver refuses autocommit on a closed connection |
| Pool.TakeEffect | src/db/connection_manager.py:134-156 | the first lock block pops exactly one idle connection into use, or decides to create below the cap, or finds the pool full |
| Pool.LastInFirstOut | src/db/connection_manager.py:136-139 | a connection kept on release is the next one handed out; one not kept leaves the idle list alone |
| ConnectionManagers.AcquireAloneEffect | src/db/connection_manager.py:122-178 | run alone, acquire discards exactly the unusable tail and hands out the rightmost usable connection, else creates if there is room, else times out |
| ConnectionManagers.AcquireInPoolMax | src/db/connection_manager.py:143-178 | with nothing idle usable, acquire creates or fails to connect iff fewer than pool_max (1 if that is less) are in use, and times out otherwise |
| ConnectionManagers.DropUnusable | src/db/connection_manager.py:158-168 | one discarding pass of the loop does not change the outcome of acquire |
| ConnectionManagers.LastPass | src/db/connection_manager.py:133-178 | any other pass ends the loop, handing out, creating, failing or timing out as AcquireAlone does |
| ConnectionManagers.ReadEffect | src/db/connection_manager.py:97-120 | a read leaves the connections in use as they were, keeps the pool within its cap and balanced, runs the operation at most twice and twice only after a transient error, and keeps no connection that failed |
| ConnectionManagers.ReadOutcome | src/db/connection_manager.py:97-120 | rows come back iff the first attempt gets a connection and does not raise, or fails with a transient error and the second gets a connection and does not raise; they are that attempt's rows, and its connection ran last |
| ConnectionManagers.OnceOutcome | src/db/connection_manager.py:225-239 | one attempt gives its rows iff it gets an idle usable connection, the rightmost, or a new one, and does not raise |
| ConnectionManagers.ConnectionManager.RemoveInUse | src/db/connection_manager.py:75-81 | removes the first occurrence of the connection, if any |
| ConnectionManagers.ConnectionManager.TakeBlock | src/db/connection_manager.py:134-156 | performs the protocol's take step |
| ConnectionManagers.ConnectionManager.DiscardBlock | src/db/connection_manager.py:161-165 | performs the protocol's discard step |
| ConnectionManagers.ConnectionManager.RegisterBlock | src/db/connection_manager.py:174-177 | performs the protocol's registration step |
| ConnectionManagers.ConnectionManager.ReturnBlock | src/db/connection_manager.py:195-219 | performs the protocol's release step and asks to close exactly what it did not keep |
| ConnectionManagers.ConnectionManager.CloseAllPools | src/db/connection_manager.py:258-267 | clears both lists and closes all their members, idle ones first |
| ConnectionManagers.ConnectionManager.AcquireConnection | src/db/connection_manager.py:122-178 | the loop terminates on the length of the idle list and computes AcquireAlone; an override or a disabled pool bypasses it |
| ConnectionManagers.ConnectionManager.ReleaseConnection | src/db/connection_manager.py:180-223 | keeps a pooled connection only if the user did not fail, the probe passed and autocommit was reset |
| ConnectionManagers.ConnectionManager.RunReadOperation | src/db/connection_manager.py:97-120 | the retry loop computes Read |
| PoolRefinement.AcquireIsARun | src/db/connection_manager.py:132-178 | the class's acquire loop is a sequence of protocol steps of one caller with the same result |
| PoolRefinement.ReadOnceIsARun | src/db/connection_manager.py:226-239 | from every reachable state a lone caller's attempt in the protocol ends with the pool the class computes |
| PoolRefinement.ReadIsARun | src/db/connection_manager.py:97-120 | from every reachable state a lone caller's read with its retry ends in the protocol with the pool the class computes |
| PoolProgress.EveryCallerCanBeServed | src/db/connection_manager.py:122-223 | from every reachable state, every caller that waits or is about to ask gets a connection in some continuation without a shutdown |
| Columns.CandidatesDiffer | src/db/connection_manager.py:322-330 | the renaming walk never tries a name twice |
| Columns.MakeUnique | src/db/connection_manager.py:322-330 | the inner loop stops at the first free candidate, within as many iterations as names are taken |
| Columns.NextName | src/db/connection_manager.py:323-330 | one renaming step counts the numeric suffix up, or appends 1 |
| Columns.NormalizeColumnNames | src/db/connection_manager.py:302-333 | the loop computes Names |
| ColumnNaming.ColumnIsCalled | src/db/connection_manager.py:311-332 | column k is called by its stripped text or col_k, with _n at its n-th occurrence, unless an earlier column is called that; then by the first renaming that is free |
| ColumnNaming.FreeNameIsGiven | src/db/connection_manager.py:311-320 | a first occurrence keeps its text, and an n-th one becomes text_n, if no earlier column is called that |
| ColumnNaming.SecondColumnIsNumbered | src/db/connection_manager.py:315-320 | two columns id become id and id_2 |
| ColumnNaming.WalkRenames | src/db/connection_manager.py:322-330 | a taken name counts its trailing number up, or gets _1 |
| ColumnNaming.TrimStrips | src/db/connection_manager.py:312 | stripping cuts off the white space around a text and nothing else |
| Text.AsciiSpaces | src/db/connection_manager.py:312 | which ASCII characters are white space |
| Columns.NamesAreClean | src/db/connection_manager.py:303-333 | one name per column, all non-empty, trimmed and pairwise distinct |
| Columns.CleanNamesStay | src/db/connection_manager.py:311-333 | distinct trimmed non-empty names are left alone |
| Columns.NormalizationIsIdempotent | src/db/connection_manager.py:302-333 | normalizing twice is normalizing once |
| Columns.RowDict | src/db/connection_manager.py:345 | one key per column that has a value, the last of equal columns winning |
| Columns.RowDictLosesNothing | src/db/connection_manager.py:341-345 | with normalized columns every value of a row is found under its own column |
| Decimals.ValueOfPrint | src/db/connection_manager.py:325-326 | parsing a printed number gives it back |
| Decimals.NoLeadingZero | src/db/connection_manager.py:325-326 | printed numbers have no leading zeros |
| RateHistory.RunIsBounded | src/middleware/rate_limiter.py:32-46 | no closed window of the policy's width holds more admissions than the limits, per actor and overall |
| RateHistory.LongRunBound | src/middleware/rate_limiter.py:32-46 | in any interval of length T at most (floor(T/width)+1) times the limit |
| LocalLimiter.SlidingWindowRateLimiter.Prune | src/middleware/rate_limiter.py:27-30 | drops exactly the front entries older than 60 seconds |
| LocalLimiter.SlidingWindowRateLimiter.Allow | src/middleware/rate_limiter.py:32-46 | computes AllowStep on the queues |
| LocalLimiter.AllowRefinesHistory | src/middleware/rate_limiter.py:32-46 | admits iff the actor's and the global admissions in the closed window are below their limits, the actor's quota being looked at first; denied calls count for nobody |
| LocalLimiter.RunRefinesHistory | src/middleware/rate_limiter.py:26-46 | after every run the pruned queues answer every later count as the full history does |
| LocalLimiter.QueuesStayShort | src/middleware/rate_limiter.py:39-46 | queue lengths never exceed the limits, whatever the clock does |
| LocalLimiter.GlobalIsSumOfActors | src/middleware/rate_limiter.py:35-46 | the in-window global events are, as a multiset, the union of all actors' in-window events |
| RedisLimiter.RedisSlidingWindowRateLimiter.Script | src/middleware/rate_limiter.py:52-85 | the script computes Eval on the sorted sets and deadlines |
| RedisLimiter.RedisSlidingWindowRateLimiter.Allow | src/middleware/rate_limiter.py:111-138 | maps the script's code to admission or the quota exceeded |
| RedisLimiter.RunRefinesHistory | src/middleware/rate_limiter.py:63-84 | after every run the store refines the history, with or without expiry |
| RedisLimiter.ExpiryIsInvisible | src/middleware/rate_limiter.py:63-84 | the 120 second expiry never changes an answer compared with keys that live for ever; 2 and 3 say that the actor's or the global window is full, 1 that neither is |
| RedisLimiter.KeysLiveTwoMinutes | src/middleware/rate_limiter.py:78-82 | after every run a key has a deadline iff it is stored, 120 seconds after its last admission |
| LimiterComparison.RedisWindowBound | src/middleware/rate_limiter.py:63-79 | at most `limit` admissions fall into any window (t - 60000, t] |
| LimiterComparison.RedisIsNeverLater | src/middleware/rate_limiter.py:27-138 | both limiters on the same requests at their true times, the shared one seeing whole milliseconds: while the shared global quota denies nothing, an actor's k-th shared admission is never later than its k-th local one, whatever the local global quota |
| LimiterComparison.SharedIsHistory | src/middleware/rate_limiter.py:107-138 | what the script admits is what the history of millisecond stamps admits |
| FkGraph.CycleSearch.Dfs | src/tools/model_graph.py:24-30 | adds the start node iff some path leads back to it avoiding what was seen; terminates on the unseen nodes |
| FkGraph.ClosesByStep | src/tools/model_graph.py:24-30 | one step of the search is exact |
| FkGraph.BuildFkGraph | src/tools/model_graph.py:6-40 | counts nodes and edges, lists the edges, and reports in ascending order exactly the nodes that reach themselves |
| FkGraph.CircularListIgnoresRowOrder | src/tools/model_graph.py:35-40 | the report depends only on the set of edges |
| FkGraph.NoneCircularIffRanked | src/tools/model_graph.py:22-33 | nothing is reported iff the nodes have a topological ranking |
| FkGraph.ReportedCycle | src/tools/model_graph.py:22-33 | a reported node lies on a cycle all of whose nodes are reported |
| FkGraph.CyclesAreReported | src/tools/model_graph.py:10-33 | every cycle of tables is reported |
| FkGraph.ExactIffNamesApart | src/tools/model_graph.py:10-33 | for some tables, the report is exact for all rows over them if and only if no two of them share a node name |
| FkGraph.NamesApartIffSchemasApart | src/tools/model_graph.py:10-11 | node names differ for every choice of table names if and only if no schema continues another one after a dot |
| FkGraph.ExactIffSchemasApart | src/tools/model_graph.py:10-33 | for some schemas, the report is exact for all rows over them if and only if none continues another one after a dot |
| FkGraph.DotFreeSchemasAreDistinct | src/tools/model_graph.py:10-11 | in particular tables of schemas without dots have different nodes |
| FkGraph.SharedNameIsReported | src/tools/model_graph.py:10-11 | two tables sharing a node name are reported without being on a cycle |
| Paths.AcyclicIffRanked | src/tools/model_graph.py:22-33 | a finite graph is acyclic iff it can be ranked |
| Orders.SortedIsUnique | src/tools/model_graph.py:38 | a set has one ascending list |
| Orders.StringLessIs | src/tools/model_graph.py:38 | strings are ordered by the first place where they differ, or else by length |
| Blocking.BlockingBySession | src/tools/dashboard_payloads.py:348-356 | the last row with positive ids decides a session's blocker |
| Blocking.LastRowCounts | src/tools/dashboard_payloads.py:348-356 | a session's blocker is the one in the last row that gives positive numbers, or texts of such, for both |
| Blocking.DepthForSession | src/tools/dashboard_payloads.py:358-368 | walks distinct blocked sessions up to the cap, stopping at an unblocked or repeated one |
| Blocking.DepthClosedForm | src/tools/dashboard_payloads.py:358-368 | depth is min(17, k), k the distance to the root or tail plus cycle length, at most the number of blocked sessions |
| Blocking.DepthOfShape | src/tools/dashboard_payloads.py:358-368 | given the end of the chain, or its tail and cycle, the depth is min(17, distance) or min(17, tail + cycle) |
| Blocking.DepthOfBlocker | src/tools/dashboard_payloads.py:358-368 | depth(s) = min(17, 1 + depth(blocker)) iff s is not on a cycle shorter than 17 |
| Blocking.EndingStops | src/tools/dashboard_payloads.py:361-364 | a chain that ends passes no session twice |
| Blocking.HeadBlockers | src/tools/sessions_dashboard_app.py:132-164 | lists in ascending order exactly the blocking sessions that are not blocked, and passes on the first 25 |
| Blocking.HeadsAreComplete | src/tools/sessions_dashboard_app.py:134-153 | on acyclic waits, every blocked session leads to a listed head iff every blocked session has a positive blocker |
| Blocking.NoHeadMeansCycle | src/tools/sessions_dashboard_app.py:134-153 | rows of positive ids without a head mean a cycle |
| Blocking.OrphanedBlockerHasNoHead | src/tools/sessions_dashboard_app.py:140-150 | a negative blocker id leaves a blocked session without head or cycle |
| Sessions.SessionManager.Cleanup | src/security/session_manager.py:20-29 | removes exactly the stale sessions and the actors left without any |
| Sessions.SessionManager.TouchSession | src/security/session_manager.py:31-45 | computes TouchStep with the session id or else the request id as key |
| Sessions.SessionManager.ActiveCount | src/security/session_manager.py:47-51 | counts all stored sessions |
| Sessions.SessionManager.ActiveCountOf | src/security/session_manager.py:47-52 | counts one actor's stored sessions |
| Sessions.SessionsRefineHistory | src/security/session_manager.py:20-52 | after every run of touches and counts exactly the sessions touched at most min(ttl, idle) seconds ago are stored, iff that is not negative or no session fits |
| Sessions.RunKnows | src/security/session_manager.py:20-52 | after every run, whatever the lifetime, every live session is stored with its latest touch |
| Sessions.CountsAreLive | src/security/session_manager.py:47-52 | a count after any run is the number of sessions live by the history, of one actor and of all |
| Sessions.RefusedIffNoRoom | src/security/session_manager.py:41-45 | after any run a touch is refused iff its key is not live and the actor has `limit` live keys |
| Sessions.SessionsStayFew | src/security/session_manager.py:43-45 | no actor ever exceeds the limit |
| Sessions.TotalIsSum | src/security/session_manager.py:50-51 | the total is the sum of the actors' counts |
| Sessions.TtlBoundsAgeIff | src/security/session_manager.py:25-27 | the ttl bounds the age of sessions since their start, in every run, if and only if min(ttl, idle) <= 0 or no session fits |
| Sessions.TouchedSessionOutlivesTtl | src/security/session_manager.py:25-27 | with one minute for ttl and idle time, touches every 50 seconds keep a session for 100 |
| PageStore.DashboardPageStore.CleanupExpired | src/tools/dashboard_page_store.py:53-60 | removes exactly the expired pages |
| PageStore.DashboardPageStore.Register | src/tools/dashboard_page_store.py:84-106 | valid arguments purge, store and give the URL; invalid ones change nothing and give the first failing check |
| PageStore.DashboardPageStore.GetValidEntry | src/tools/dashboard_page_store.py:109-121 | an invalid id raises; else it purges and returns the live entry, if any |
| PageStore.DashboardPageStore.GetPage | src/tools/dashboard_page_store.py:124-129 | the live page's html; an invalid id raises |
| PageStore.DashboardPageStore.GetMetadata | src/tools/dashboard_page_store.py:132-140 | the live page's metadata; an invalid id raises |
| PageStore.DashboardPageStore.Refresh | src/diagnostics/routes.py:30-131 | run alone: fetches the metadata of a live page and, unless something in between fails, registers the page again with them |
| PageStore.PurgingIsInvisible | src/tools/dashboard_page_store.py:53-121 | after any interleaving of registrations, lookups and the halves of refreshes, a lookup finds the page registered last under its id iff its own expiry has not passed |
| PageStore.GettersReturn | src/tools/dashboard_page_store.py:109-140 | after any run an invalid id raises, and otherwise the getters return the html and the metadata of the page registered last under the id iff it has not expired |
| PageStore.StoresExactlyTheLive | src/tools/dashboard_page_store.py:53-121 | after a registration or lookup with valid arguments the store holds exactly the live pages |
| PageStore.FetchesAreRemembered | src/diagnostics/routes.py:30-33 | what a running refresh holds is what the history says it fetched |
| PageStore.RefreshKeepsMetadata | src/diagnostics/routes.py:31-130 | any number of refreshes, whatever falls in between their halves, keeps a page's metadata, if and only if no refresh begun before its registration still holds other metadata |
| PageStore.FreshIdKeepsMetadata | src/tools/sql_tools.py:3524-3611 | a page registered under a fresh id keeps its metadata in every continuation |
| PageStore.AlwaysKeepsIff | src/tools/dashboard_page_store.py:84-140 | a registration keeps its metadata in every history with the same registrations of its id if and only if each of those carried the same metadata or none |
| PageStore.StaleRefreshExample | src/diagnostics/routes.py:31-130 | a refresh begun before a registration and ended after it puts the old metadata back |
| PageStore.NewlineIsAccepted | src/tools/dashboard_page_store.py:20-25 | an id that ends in a newline is accepted although the documented format excludes it |
| PageStore.AcceptedIs | src/tools/dashboard_page_store.py:20-25 | which ids are accepted: up to 255 letters, digits, hyphens and underscores, and a newline that may come last |
| PageStore.AcceptedIsDocumentedIff | src/tools/dashboard_page_store.py:20-25 | an accepted id has the documented format if and only if it does not end in a newline |
| Gate.ReadGate.RunReadTool | src/tools/sql_tools.py:952-1115 | uninterrupted, performs Step: the checks in order, the read, the denial count and one audit event |
| Gate.ReadGate.Checked | src/tools/sql_tools.py:980-1009 | authorisation, session, rate and write checks in order, then the pooled or dedicated read |
| Gate.OnlyCheckedCallsReachThePool | src/tools/sql_tools.py:980-1009 | uninterrupted, only a call passing every check reaches the pool; it runs the operation at most twice and leaves the connections in use, whoever uses them, as they were |
| GateAnswers.StepAnswers | src/tools/sql_tools.py:980-1115 | uninterrupted, the first failing check gives the refusal, a call passing all answers with the rows of the attempt that succeeded or a read error; one audit event reports just that; a denial is counted iff one of the four checks refused |
| GateAnswers.FetchedAnswers | src/tools/sql_tools.py:1000-1009 | a read answers with the rows of the first attempt, or after a transient error of the second, or with an error, and the operation ran as often as attempts got a connection |
| GateAnswers.NameOkIs | src/tools/input_validation.py:4-10 | a database name must not be blank nor contain ; or -- |
| GateProtocol.OnlyCheckedCallsReachThePool | src/tools/sql_tools.py:960-1009 | however calls overlap and whoever else uses the pool, only a call that was authorised, had its session touch accepted, has an admission, the guard's consent and a well-formed database name touches the pool, for at most two executions, leaving the connections in use as they were |
| GateProtocol.UnderWayHasTouched | src/tools/sql_tools.py:980-1009 | a call between its session touch and the end of its read has had that touch accepted at some step of the run |
| GateProtocol.PoolRestsBetweenSegments | src/tools/sql_tools.py:980-1009 | when only read tools use the pool, between segments nothing is in use, the pool is within its cap and its books balance |
| GateProtocol.OneAuditEventPerCall | src/tools/sql_tools.py:980-1115 | however calls overlap and whichever messages fail, one audit event per finished call, in order of completion, "allow" iff the call returned normally |
| GateAnswers.EveryAnswerIsDecided | src/tools/sql_tools.py:980-1115 | however calls overlap, every answer was decided at some step of its call, by the check or the attempt that gives it |
| GateAnswers.AllowedRowsWereRead | src/tools/sql_tools.py:1000-1110 | however calls overlap, the row count of an "allow" event is that of an attempt that succeeded in the pool its call found |
| GateAnswers.AllowedActorIsAuthorised | src/tools/sql_tools.py:980-1115 | an "allow" event names the actor whom authorisation resolved |
| GateAnswers.DenialsAreCounted | src/tools/sql_tools.py:1043-1045 | the denial counter is the number of calls that one of the four checks refused |
| GateAnswers.SessionsAreTheTouches | src/tools/sql_tools.py:986 | the stored sessions are those of the authorised calls' touches, and no actor exceeds the session limit |
| GateProtocol.TwoPerAdmission | src/tools/sql_tools.py:980-1009 | however calls overlap and whoever else uses the pool, executions attributable to the admissions in a window, an actor's or all, number at most two per admission |
| GateProtocol.ExecutionsAreBounded | src/tools/sql_tools.py:980-1009 | executions attributable to one actor's admissions in any window of the limiter number at most twice its limit, and to all actors' at most twice the global limit |
| GateProtocol.AloneIsStep | src/tools/sql_tools.py:952-1115 | a call that nothing interrupts is the sequential gate's Step |

## Left out

- SQL, ODBC and result fetching: a connect yields an identity or an error, an operation returns rows or raises.
- `_is_transient_read_error` and `_connection_string`: the first is an input to each attempt, the second text.
- Several instances: one pool is modelled; `close_all_pools` loops over independent ones.
- `healthcheck_instance`: it connects while holding the reentrant lock, so its interleavings are among those modelled.
- ConnectionManagers.ConnectionManager.AcquireConnection: the wait of a caller running alone ends at its deadline; spurious and early wake-ups are in the protocol only.
- Cancellation and other exceptions outside `Exception`: a cancelled call would be audited as allowed.
- `get_pool_diagnostics`, health records, logging, metrics, progress messages to the client: presentation.
- Gate.ReadGate.RunReadTool: the audit event keeps request id, actor, decision with its reason and row count; latency, tool, instance, SQL text and authentication details are left out. Overlapping calls and failing messages are in `GateProtocol` only.
- GateProtocol.ExecutionsAreBounded: executions count by the admission they belong to, not by the time they run at, which is later. A read is one segment: it blocks the event loop.
- Other users of the pool (health checks, dashboards and their refreshes): in `GateProtocol` they leave the pool in any sound state between two segments.
- Token verification and the write guard's patterns: inputs of the gate.
- The other tool bodies and dashboards: repetitions of the gate around SQL text, and HTML.
- RedisLimiter.RedisSlidingWindowRateLimiter.Script: members are taken to be unique, as their random part intends, so only scores are kept; the server's clock is the caller's; server failures are left out.
- RedisLimiter.RedisSlidingWindowRateLimiter.Allow: the branch for an unknown code is unreachable and omitted.
- FkGraph.BuildFkGraph: a row's values are the texts they format to; a missing one formats to "None".
- Blocking.HeadBlockers: ids that are not integers.
- Blocking.BlockingBySession: how Python's `int` reads a text is an input.
- Grouping of chains by blocker and the wait column: HTML only.
- PageStore.DashboardPageStore.Register: the conversion of the ttl by `int`, the reading of the base URL from the environment and the wording of errors; copies of metadata are values.
- PageStore.DashboardPageStore.Refresh: validation of the metadata, the write guard, the queries and the rendering are one input, whether they succeed, with the html they give.
- Order of iteration over sets and dictionaries: arbitrary in the model.
