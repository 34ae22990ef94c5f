# Verification of the SDK's stateful cores

A Dafny 4.11 model of the parts of `eazy_sdk` that keep state or compute an order, with the properties they
promise proved for every input, every run and every interleaving. `dafny verify dfyconfig.toml` checks all of it.

| file | what it models |
|---|---|
| `Ordering.dfy` | lists without repetition, Python's stable `sorted`, first positions |
| `Slots.dfy`, `PlanGraph.dfy` | the plan graph compiler: checks, Kahn sort with a (kind, name) ready list, cycle search |
| `Patches.dfy` | atomic patches over value slots |
| `Attempts.dfy`, `AttemptOutcomes.dfy` | one call as a loop of attempts: budgets, hard limit, redirects, backoff, and how each exchange ends or continues it |
| `Protection.dfy`, `ProtectionStates.dfy` | the reference-counted lock table and the shared solutions, for any number of threads |
| `Sessions.dfy`, `SessionOrigins.dfy` | the session lifecycle over a revisioned store, and whose sessions it keeps |
| `CookieRules.dfy`, `Cookies.dfy`, `CookieLaws.dfy` | where a cookie belongs, the jar with its insertion order, use ticks and two eviction bounds, and what it sends told by labels, paths and times |
| `Loading.dfy`, `LoadingLaws.dfy` | model loading: interpreted annotations, compiled loaders, the registry's four caches, and what each form of annotation gives |
| `FieldCrypto.dfy` | field crypto as edits of frozen JSON trees at paths that do not overlap |
| `Pagination.dfy`, `PageRuns.dfy`, `OffsetPages.dfy`, `NumberedPages.dfy`, `LinkedPages.dfy` | the four pagination strategies and the iteration they drive against an arbitrary server, and what each reads from a server of its kind |

Objects whose fields the source updates are classes here (`CycleSearch`, `ProtectionLockRegistry`,
`MemorySessionStore`, `SessionLifecycle`, `CookieJar`, `ModelAdapterRegistry`); each method is proved against a
function of the old state, and the properties over runs are lemmas about those functions. Loops of the source are
loops here. Plan nodes and slots are objects because the source compares them by `id`.

What a step function computes is told a second time without it, from the inputs a caller sees: `LoadingLaws`,
`CookieLaws`, `AttemptOutcomes`, `SessionOrigins`, `ProtectionStates`, `NumberedPages` and `LinkedPages` hold these laws.

What the environment decides is a parameter: an `Exchange` is whatever one attempt meets, `Answers` what a session
call meets while it holds the lock, `Action` a scheduler's choice, `Server` the reply to each page request, `World`
what the interpreter and the model libraries answer, a field algorithm an arbitrary partial function.

## What the proofs turned up

- **Cookie expiry.** `_expiry` documents that unparsable attributes are ignored, but a `Max-Age` past the last
  representable timestamp raises out of `store` before `_evict` runs (eazy_sdk/cookies.py:274-296, 374-394), as does a
  host that starts with a dot (eazy_sdk/cookies.py:100-116). `RaisesIff` reads this off a line. `BoundsSurviveStoreIff`
  says which responses keep every jar within the 50/3000 bounds: those without a raising line, and those that remove
  again what they put before the first one. `OverflowingMaxAgeBreaksBounds` gives two lines that break the bounds of a jar that a `load` has filled;
  `ReachableJar` says that the next call that stores or loads and returns repairs them.
- **Snapshots.** A jar rebuilt from `snapshot()` sends the same cookies for every address exactly when the live cookies are
  within both bounds (`RebuiltJarSelectsTheSameIff`). They are not after such a response: the run of
  `OverflowingMaxAgeBreaksBounds` leaves 51 cookies of one domain, and loading its snapshot loses one
  (eazy_sdk/cookies.py:427-445).
- **Read your writes.** A cookie of a response may be evicted by the lines after it. `StoredCookieIsSentIff` says exactly
  when, whatever the jar held; fewer than 50 later keys of its domain and 3000 in all never do it
  (`StoredCookieIsSent`), 50 that stay always do (`PushedOutByFifty`).
- **Offset pages.** The class documents that a server answering fewer elements than asked is followed
  (eazy_sdk/pagination.py:89-95); with an integer `limit` field a short page ends the iteration
  (eazy_sdk/pagination.py:308-310). `OffsetWithLimitIff` gives the exact condition for pages of any lengths: the list is
  drained when every page on the way fills the limit, up to the one that reaches the end. `ShortPageLosesTheRest` is a
  server for which it is not.
- **Hard attempt limit.** `Resilience.call_options()` makes the limit the sum of the budgets, and then it is never hit.
  For hand-made `CallOptions` it can be; `LimitReachableIff` says when.
- **Closing protection.** `close_protection_session` clears lock entries that are in use. Mutual exclusion holds in
  every run whose closes find all callers on their way out (`QuietClosesKeepExclusion`), and a close that finds anybody
  else lets some continuation break it (`CloseKeepsExclusionIff`); `CloseBreaksExclusion` is the shortest such run. The
  counting of the entries is lost earlier: `CloseKeepsTableIffNobodyRegistered`.
- **Session refresh.** `refresh(current)` trusts its argument, which the runs of `RevisionsOnlyGrow` do not contain.
  `TrustedRefresh` says exactly when it saves, when the store reports a backward move and when a revision is saved
  again; `StaleRefreshes` shows both failures after three adoptions.
- **Field crypto.** Inverse algorithms are not enough for a round trip: a write sorts the ciphertext's members.
  `RoundTripIff` is the exact condition, `UnsortedCiphertextIsLost` the example.
- **Compiled loaders.** A plan refuses a class no single adapter supports; `_load` passes its instances through.
  `CompiledAgreesIff` says that this is the only difference.
- **Equal keys.** The ready list makes the plan depend on the listing when nodes share a (kind, name). Among such nodes
  the first to become free goes first, and those free from the start go in listed order: that is part of what
  `CompileGraph` promises. `EqualKeysFollowListing` and `HeldUpTwinRunsLater` show listed order kept and reversed.
  `OneGreedyOrderIff` is the condition under which keys alone decide the plan.

## Model

| member | source | states |
|---|---|---|
| PlanGraph.CompileGraph | eazy_sdk/core/kernel.py:338-399 | succeeds exactly on compilable graphs, with the greedy order, a linear extension in which equal keys go first come first served; a failure is justified, and it is the cycle error exactly when the earlier checks pass and the edges have a cycle |
| PlanGraph.CheckedEdges | eazy_sdk/core/kernel.py:343-378 | both passes: either an edge table that holds exactly the declared and slot edges, or a true complaint |
| PlanGraph.DeclareAfter | eazy_sdk/core/kernel.py:353-361 | one node's `after`: unknown nodes and phase back-edges refused, all its edges entered |
| PlanGraph.RecordWriters | eazy_sdk/core/kernel.py:362-370 | one node's writes: a second writer is refused, by name of slot and both nodes |
| PlanGraph.WireReads | eazy_sdk/core/kernel.py:371-378 | one node's reads: an edge from each slot's writer unless it is the node itself, back-edges refused |
| PlanGraph.CountIndegrees | eazy_sdk/core/kernel.py:379-382 | each node's count is the number of nodes it waits for |
| PlanGraph.Release | eazy_sdk/core/kernel.py:391-395 | after a node ran, counts and the ready list are right again, whatever the order its targets are told in |
| PlanGraph.Kahn | eazy_sdk/core/kernel.py:383-396 | runs the least available node each time, equal keys in the order they became free and at the start in listed order; stops only when every node left waits for another one left |
| PlanGraph.CyclePath | eazy_sdk/core/kernel.py:402-428 | a reported path is a closed walk along edges; without one, every node was finished after all it leads to |
| PlanGraph.CycleSearch.Visit | eazy_sdk/core/kernel.py:409-422 | the recursive visit: a closed walk, or the node is finished with everything it leads to |
| PlanGraph.NothingLeftOver | eazy_sdk/core/kernel.py:396-428 | a search that finishes every node leaves nothing unplaced, so the `["unknown"]` fallback is unreachable |
| PlanGraph.CompiledOrderIsLeast | eazy_sdk/core/kernel.py:383-395 | with distinct keys the compiled order is the lexicographically least linear extension by (kind, name) |
| PlanGraph.RunsBefore | eazy_sdk/core/kernel.py:383-395 | a node runs before another available one only if it is of an earlier kind, or of the same kind with a name that is equal, begins the other, or is smaller at the first character that differs |
| PlanGraph.CompiledOrderIgnoresListing | eazy_sdk/core/kernel.py:338-399 | with distinct keys any listing of the same nodes compiles to the same order |
| PlanGraph.CompilableIgnoresListing | eazy_sdk/core/kernel.py:343-398 | success does not depend on the listing |
| PlanGraph.EqualKeysFollowListing | eazy_sdk/core/kernel.py:384-387 | what is compiled from two unconnected nodes with one key is the listing, so the plan depends on it |
| PlanGraph.HeldUpTwinRunsLater | eazy_sdk/core/kernel.py:388-395 | listed order is not kept in general: a twin listed first that waits for a third node runs after the other |
| PlanGraph.OneGreedyOrderIff | eazy_sdk/core/kernel.py:383-396 | a compilable graph has one greedy order exactly when no greedy beginning leaves two available nodes that tie for least |
| PlanGraph.GreedyIsLinearExtension | eazy_sdk/core/kernel.py:388-399 | a full greedy order is a permutation of the nodes that respects every edge |
| PlanGraph.LinearExtensionAcyclic | eazy_sdk/core/kernel.py:396-399 | a returned order rules out every closed walk |
| PlanGraph.CompiledKindsAscend | eazy_sdk/core/kernel.py:356-378 | phases never go back in the compiled order |
| Patches.ApplyPatchAtomic | eazy_sdk/core/kernel.py:431-466 | the candidate loop commits the whole fold or reports its first error and nothing else |
| Patches.ConcatenatedPatch | eazy_sdk/core/kernel.py:431-466 | one patch made of two succeeds exactly when both do in sequence and the second insists on no slot of the first; then the result is the same |
| Patches.EarlierWrites | eazy_sdk/core/kernel.py:437-445 | earlier writes matter only to operations that forbid a second write |
| Patches.ErrorPatch | eazy_sdk/core/kernel.py:431-466 | an all-ERROR patch succeeds exactly when each operation fits alone, and does each in its own cell |
| Patches.ErrorPatchIgnoresOrder | eazy_sdk/core/kernel.py:431-466 | for all-ERROR patches neither success nor result depends on the order of operations |
| Patches.PresentValueIsKept | eazy_sdk/core/kernel.py:446-450 | an operation that preserves what is there changes no cell that holds a value, valid or not as its own would be |
| Patches.WritesWhatItValidates | eazy_sdk/core/kernel.py:451-465 | a set stores exactly the validated value and a replacement exactly the validated values in order; otherwise an invalid value or a single-value slot is the error |
| Patches.AppendsKeepOrder | eazy_sdk/core/kernel.py:451-460 | appends leave what was stored followed by the validated values in the order of the operations, or fail for the first reason there is |
| Attempts.Execute | eazy_sdk/clients/executor.py:1228-1293 | the loop ends as its exchanges decide, waits exactly as listed, within the hard limit |
| AttemptOutcomes.ReturnsIff | eazy_sdk/clients/_decisions.py:201-271 | an exchange ends a call with a result exactly when it is a response that asks for nothing and is a success or wanted raw; any other that asks for nothing is raised |
| AttemptOutcomes.ReturnedIsResult | eazy_sdk/clients/_decisions.py:265-271 | whatever the run, what a call returns is a success or a response wanted raw |
| AttemptOutcomes.EveryExchangeLeads | eazy_sdk/clients/_decisions.py:201-271 | in every run: proposals, then retries, reactions, refreshes, redirects by status and by page, in this order, each with the budget it costs, the state it leaves and the error when it is refused |
| AttemptOutcomes.CallStarts | eazy_sdk/clients/attempts.py:22-107 | a call starts at its own address with its first attempt and nothing spent |
| AttemptOutcomes.LeastOptions | eazy_sdk/clients/config.py:55-65 | the least options that are allowed, and some that are not |
| Attempts.EveryAttemptIsPaidFor | eazy_sdk/clients/attempts.py:22-107 | in every run no budget is negative, and attempts after the first equal units spent plus middleware replays |
| Attempts.StepKeepsBudget | eazy_sdk/clients/attempts.py:152-255 | one attempt spends exactly one unit, or none for a replay a middleware proposed |
| Attempts.TransitionAsks | eazy_sdk/clients/_decisions.py:201-271 | a response transition that will spend a unit has found one of that budget left |
| Attempts.ResilienceLimitIsBudget | eazy_sdk/clients/config.py:55-65 | under lowered resilience options the attempts left are the units left, the limit is never hit and its tests add nothing |
| Attempts.LimitReachableIff | eazy_sdk/clients/executor.py:1228-1263 | some run without free replays hits the limit exactly when the options let the budgets outgrow it |
| Attempts.LimitNeedsBudget | eazy_sdk/clients/executor.py:1256-1263 | hitting the limit needs budgets worth more than it, one unit of them unguarded |
| Attempts.Exhaust | eazy_sdk/clients/executor.py:1228-1263 | builds the run that spends its way past the limit |
| Attempts.MethodOnlyBecomesGet | eazy_sdk/clients/_decisions.py:234-264 | over every run the method is the declared one or GET, and GET exactly when the body is dropped |
| Attempts.MethodFollowsRfc9110 | eazy_sdk/clients/_decisions.py:234-264 | in every run the next method is the declared one rewritten by section 15.4 of RFC 9110 once for each redirect status followed, and GET after a redirect that a page asks for |
| Attempts.DroppedBodyStaysDropped | eazy_sdk/clients/attempts.py:207-227 | a dropped body and a rewritten method never come back |
| Attempts.HeadStaysHead | eazy_sdk/clients/_decisions.py:240-251 | HEAD stays HEAD without client redirects |
| Attempts.NonIdempotentOnlyRedirects | eazy_sdk/clients/_decisions.py:211-232 | without guards, a call that is not idempotent is repeated only to follow redirects |
| Attempts.NonIdempotentSpends | eazy_sdk/clients/attempts.py:160-204 | a call that is not idempotent never touches the transport and refresh budgets |
| Attempts.WaitsCountUp | eazy_sdk/clients/attempts.py:160-204 | `wait` is called with 1, 2, 3, ..., once for each transport unit spent |
| Attempts.CallBackoffBound | eazy_sdk/clients/executor.py:1228-1293 | in every run of a call, ended or not, the sleeps for its waits add up to at least the floor and at most the bound for the R transport units it spent |
| Attempts.BackoffBound | eazy_sdk/policies.py:68-77 | R waits in a row sleep between R base_delay and R(max_delay + jitter), or uncapped between base_delay(2^R - 1) and R jitter more |
| Attempts.DelayBound | eazy_sdk/policies.py:68-77 | one wait is at least its share of the floor and at most its share of the bound |
| Attempts.DelaysDouble | eazy_sdk/policies.py:68-77 | the first wait is base_delay, each further one twice the one before up to max_delay, with the jitter on top |
| Protection.ProtectionLockRegistry.Register | eazy_sdk/clients/executor.py:493-499 | finds or creates the entry and counts one more user |
| Protection.ProtectionLockRegistry.Unregister | eazy_sdk/clients/executor.py:509-513 | counts one user less; the last takes the entry out if it is still the one in the table |
| Protection.ProtectionLockRegistry.TryAcquire | eazy_sdk/clients/executor.py:500-504 | takes the entry's lock exactly when nobody holds it |
| Protection.StepKeepsRegistered | eazy_sdk/clients/executor.py:478-513 | every step but a close keeps the table, the counts and the locks right |
| Protection.AtMostOneInside | eazy_sdk/clients/executor.py:478-513 | for any threads and interleaving without close, at most one caller is inside per key |
| Protection.EntryCountsItsCallers | eazy_sdk/clients/executor.py:478-513 | an entry is in the table exactly while callers use it, and counts them |
| Protection.NothingLeftBehind | eazy_sdk/clients/executor.py:509-513 | once all callers are gone, no entry and no held lock remain |
| Protection.CloseKeepsExclusionIff | eazy_sdk/clients/executor.py:552-556 | after a close some run without further closes puts two callers inside one key exactly when a caller of that moment is not on its way out |
| Protection.QuietClosesKeepExclusion | eazy_sdk/clients/executor.py:478-556 | at most one caller is inside per key in every run whose closes find all callers on their way out |
| Protection.CloseKeepsTableIffNobodyRegistered | eazy_sdk/clients/executor.py:552-556 | a close keeps the table filing and counting every caller exactly when nobody is registered |
| Protection.CloseBreaksExclusion | eazy_sdk/clients/executor.py:552-556 | the run in which a close lets a second caller in beside the first |
| Protection.HandedUnderOwnFingerprint | eazy_sdk/clients/executor.py:2086-2122 | in every run, even with closes, a state handed to a caller was acquired under that caller's fingerprint |
| Protection.StepKeepsFingerprinted | eazy_sdk/clients/executor.py:1084-1118 | each step of looking up, solving and publishing keeps that |
| Protection.OneSolve | eazy_sdk/clients/executor.py:1084-1118 | per key: callers with one question, among callers of other keys and lookups that take the state for live, solve once, or not at all when a usable state is cached, and all are given the same state |
| Protection.StepFromUnsettled | eazy_sdk/clients/executor.py:1096-1118 | until the first solve of the key no caller of it has a result; that solve settles the question |
| Protection.StepKeepsSettled | eazy_sdk/clients/executor.py:1096-1103 | once a usable state of the key is cached it stays and nobody solves that key again |
| ProtectionStates.AloneCallIsServed | eazy_sdk/clients/executor.py:1084-1118 | a call that finds the lock free is given the cached state, if that fits, is shareable and is not the one it rejects, and otherwise the one its solver makes |
| ProtectionStates.CallersProceed | eazy_sdk/clients/executor.py:493-513 | what each other step of a caller does to its phase, to the cache and to what it is given |
| ProtectionStates.LookInFull | eazy_sdk/clients/executor.py:1101-1104 | a cached state is used again exactly when it fits the fingerprint and is still shareable; otherwise it is dropped and solved anew |
| ProtectionStates.SolveInFull | eazy_sdk/clients/executor.py:1105-1118 | a solve makes a new state under the caller's fingerprint, which others find only when it applies and is shareable |
| ProtectionStates.NothingIsShared | eazy_sdk/clients/executor.py:1096-1118 | in runs in which no look at a key finds a shareable state, its callers are given at most as many states as were solved for it |
| ProtectionStates.RejectedIsNotHanded | eazy_sdk/clients/executor.py:1097-1118 | in every run no caller is given the state it rejects |
| ProtectionStates.FindInFull | eazy_sdk/clients/executor.py:2182-2201 | a lookup hands out the newest of the fitting live states of a family, nothing when there is none, and forgets the others that do not fit |
| Sessions.MemorySessionStore.Save | eazy_sdk/auth/session.py:374-384 | refuses exactly a backward move, else stores the record and no other |
| Sessions.MemorySessionStore.Invalidate | eazy_sdk/auth/session.py:386-396 | removes the record unless another revision was expected |
| Sessions.SessionLifecycle.DoResolve | eazy_sdk/auth/session.py:245-285 | stored if accepted at that moment, else refreshed, else the initial session, else acquired, with every error path, a validator that raises included |
| Sessions.SessionLifecycle.DoAdopt | eazy_sdk/auth/session.py:287-296 | a valid session is saved above whatever is stored |
| Sessions.SessionLifecycle.DoRefreshRevision | eazy_sdk/auth/session.py:306-327 | a newer valid record is returned as it is, an older one is refused, the rejected one refreshed |
| Sessions.SessionLifecycle.DoRefreshLocked | eazy_sdk/auth/session.py:329-353 | refreshes, validates and saves at the next revision |
| Sessions.SessionLifecycle.Load | eazy_sdk/auth/session.py:194-207 | loading never counts from below the store and pours its cookies in once |
| Sessions.RevisionsOnlyGrow | eazy_sdk/auth/session.py:245-396 | in every run of resolve, adopt, refresh of a selected revision and invalidate, with sessions that expire at any moment, each saved revision is above all earlier ones and the store never reports a backward move |
| Sessions.StepProceeds | eazy_sdk/auth/session.py:245-359 | each call keeps that, logs at most one save, and a success is what the store holds |
| Sessions.ExpiredIsRefreshed | eazy_sdk/auth/session.py:245-268 | one record is returned while it is accepted and refreshed by the next call when it no longer is |
| Sessions.RefreshedOnce | eazy_sdk/auth/session.py:245-353 | any number of callers rejecting revision r, with `resolve` calls among them that accept the stored session, refresh once; all calls from that one on get the one session saved as r + 1, and those before it the old one |
| Sessions.TrustedRefresh | eazy_sdk/auth/session.py:298-304 | from the answer, the record left and the argument: exactly when it saves, when the store reports a backward move, and when revisions keep growing |
| Sessions.StaleRefreshes | eazy_sdk/auth/session.py:298-353 | a run after which one stale argument saves a revision twice and an older one moves the store backwards |
| SessionOrigins.OnlyGoodIsSaved | eazy_sdk/auth/session.py:245-353 | what a call saves was got from the source it had to ask, parsed, and accepted at that moment; a call that saves nothing returns what is stored or fails |
| SessionOrigins.RecordWasGood | eazy_sdk/auth/session.py:245-353 | in every run the record in the store is the one it began with or was good when some call took it |
| SessionOrigins.ResolveInFull | eazy_sdk/auth/session.py:245-285 | for every state: which source is asked, under which revision its session is saved, and every error |
| SessionOrigins.AdoptInFull | eazy_sdk/auth/session.py:287-296 | an adopted session is saved right above the counter and the record when it is good, refused otherwise |
| SessionOrigins.RefreshInFull | eazy_sdk/auth/session.py:306-353 | no record, an older one, a newer accepted one, one that cannot be refreshed, and a refresh that is good or not |
| SessionOrigins.MeanwhileLoses | eazy_sdk/auth/session.py:386-396 | invalidations that fall into a call take the record away exactly when one names no revision or its own |
| SessionOrigins.InvalidatesAndPours | eazy_sdk/auth/session.py:194-207 | whoever finds a record on a site with cookies has poured them in, once in all |
| CookieRules.PathMatchesWholeSegments | eazy_sdk/cookies.py:264-271 | a cookie path matches itself and what is under it by whole segments (section 5.1.4 of RFC 6265) |
| CookieRules.OwnDefaultPathMatches | eazy_sdk/cookies.py:256-271 | a request path is under its own default path |
| CookieLaws.DefaultPathIsDirectory | eazy_sdk/cookies.py:256-261 | the default path is everything before the last slash, or the root (section 5.1.4 of RFC 6265) |
| CookieLaws.DomainsMatchByLabels | eazy_sdk/cookies.py:248-253 | a host matches exactly the names whose labels are its last ones, and an address only itself (section 5.1.3 of RFC 6265) |
| CookieLaws.ScopeInFull | eazy_sdk/cookies.py:317-330 | which domain a line may name: none or the host itself, or a name above it that is no public suffix and, without a list, has more than one label |
| CookieLaws.LineInFull | eazy_sdk/cookies.py:449-480 | when a line is ignored, raises, removes or puts, by its scope and times, and the cookie it puts, field by field |
| CookieRules.PutCookieComesBack | eazy_sdk/cookies.py:449-490 | a cookie put without an absolute path belongs to the address it came from and is alive |
| CookieRules.RaisesIff | eazy_sdk/cookies.py:274-296 | when a line in scope raises: an expiry past the last timestamp, or a host that starts with a dot |
| Cookies.CookieJar.StoreCookies | eazy_sdk/cookies.py:374-394 | the lines in order, then eviction; a line that raises ends the call before it |
| Cookies.CookieJar.Select | eazy_sdk/cookies.py:396-410 | drops the expired, returns the selected, touches each in order |
| Cookies.CookieJar.EvictCookies | eazy_sdk/cookies.py:501-510 | expired first, then each overfull domain, then the whole jar |
| Cookies.CookieJar.DropLeastUsed | eazy_sdk/cookies.py:512-517 | removes the least recently used keys in excess |
| Cookies.CookieJar.LoadState | eazy_sdk/cookies.py:427-437 | merges the live cookies of a state and evicts |
| CookieLaws.MergeHolds | eazy_sdk/cookies.py:427-436 | merging holds the live cookies of a state, a later one in place of an earlier, and what was there under other keys |
| Cookies.CookieJar.Snapshot | eazy_sdk/cookies.py:439-445 | the live cookies in insertion order |
| Cookies.VictimsAreOldest | eazy_sdk/cookies.py:512-517 | as many victims as there is excess, each used before every key that stays |
| Cookies.EvictBounds | eazy_sdk/cookies.py:501-517 | after eviction at most 50 cookies a domain and 3000 in all |
| Cookies.EvictKeepsExactly | eazy_sdk/cookies.py:501-517 | eviction keeps exactly the live cookies after which fewer than 50 of their domain were used, and fewer than 3000 of those the domains keep |
| Cookies.EvictedWereLeastUsed | eazy_sdk/cookies.py:501-517 | a live cookie that is evicted was used before all its domain keeps, or before all the jar keeps |
| Cookies.ReachableJar | eazy_sdk/cookies.py:374-445 | every reachable jar has one tick per cookie, all distinct and past, and keeps both bounds unless a `store` raised after the last store or load that returned |
| Cookies.ReturningRunsKeepBounds | eazy_sdk/cookies.py:374-445 | runs whose calls all return keep both bounds throughout |
| Cookies.BoundsSurviveStoreIff | eazy_sdk/cookies.py:374-394 | a response keeps every bounded jar bounded exactly when each cookie put before its first raising line is removed again before that line |
| Cookies.StoreRaisesIff | eazy_sdk/cookies.py:374-394 | whether and at which line storing raises is read off the lines, whatever the jar holds |
| Cookies.OverflowingMaxAgeBreaksBounds | eazy_sdk/cookies.py:274-296 | a run from the empty jar, a `load` of 50 cookies and a `store` of two lines, that ends over the bounds with a jar whose snapshot does not rebuild it |
| Cookies.SelectsExactly | eazy_sdk/cookies.py:396-410 | `select` returns exactly the live matching cookies, longer paths first, ties in creation order (section 5.4 of RFC 6265) |
| CookieLaws.SentExactly | eazy_sdk/cookies.py:396-490 | a request carries exactly the cookies that are alive, made for its host or, unless host-only, a name above it, not secure-only when it is not secure, and made for its path or one above |
| CookieLaws.SelectedAreUsed | eazy_sdk/cookies.py:396-410 | selecting gives the returned cookies the next ticks in creation order and no other cookie a new one |
| Cookies.PutKeys | eazy_sdk/cookies.py:449-480 | replacing a cookie keeps its place, a new one goes last (section 5.3 of RFC 6265) |
| Cookies.RebuiltJarSelectsTheSameIff | eazy_sdk/cookies.py:427-445 | a jar loaded from any jar's snapshot at the same clock selects the same cookies for every address exactly when the live cookies are within both bounds |
| Cookies.NewestSurvives | eazy_sdk/cookies.py:501-517 | eviction never takes the cookie used last |
| Cookies.StoredCookieIsSentIff | eazy_sdk/cookies.py:374-410 | read your writes, exactly: a cookie that a reached line puts and no later line touches is sent back to that address unless the call evicts and what the later lines put pushes it out; what the jar held makes no difference |
| Cookies.LeavesIff | eazy_sdk/cookies.py:374-394 | a later line touches a cookie exactly when it is reached and puts or removes its key |
| Cookies.StoredCookieIsSent | eazy_sdk/cookies.py:374-410 | it is sent back when the call raises, and when the lines after it put fewer than 50 keys of its domain and fewer than 3000 in all |
| Cookies.PushedOutByFifty | eazy_sdk/cookies.py:374-410 | it is not when 50 keys of its domain that later lines put are still there at the end |
| Loading.CompiledAgrees | eazy_sdk/models/adapters.py:491-608 | a compiled loader gives the result or failure of interpreting its annotation, on every value |
| Loading.CompiledAgreesIff | eazy_sdk/models/adapters.py:421-608 | compiling and interpreting differ exactly on instances of a class no single adapter supports |
| Loading.CompileRefuses | eazy_sdk/models/adapters.py:491-608 | refused at build time: special forms, further aliases, and classes that not exactly one adapter supports; ambiguous when several do, else unsupported |
| Loading.NoneNeverLoads | eazy_sdk/models/adapters.py:511-528 | leaving `None` out of a union's candidates changes no result |
| Loading.UnionEscapes | eazy_sdk/models/adapters.py:433-446 | an exception that is neither TypeError nor ValueError ends a union's search |
| LoadingLaws.UnionDecides | eazy_sdk/models/adapters.py:433-446 | the first option that is not `None` and does not fail with a model error, a TypeError or a ValueError decides, with its value or its exception; without one nothing fits |
| LoadingLaws.UnionFailures | eazy_sdk/models/adapters.py:436-446 | a union fails with no model error but its own and with no exception it catches |
| LoadingLaws.UnionForm | eazy_sdk/models/adapters.py:433-437 | a union gives `None` for `None` when it may, and otherwise asks its options |
| LoadingLaws.SequencesLoad | eazy_sdk/models/adapters.py:447-463 | lists and tuples hold what each item loads to, in place, or fail like the first item that does not; other values and wrong lengths are refused |
| LoadingLaws.DictLoads | eazy_sdk/models/adapters.py:464-471 | a dictionary is built pair by pair, key before value, and ends with the first pair that cannot be put |
| LoadingLaws.DictForm | eazy_sdk/models/adapters.py:464-471 | a mapping is loaded into a new plain dictionary, anything else is refused |
| LoadingLaws.SingleValuesLoad | eazy_sdk/models/adapters.py:427-432 | instances pass, other values are converted, `None` and special forms are refused or not |
| LoadingLaws.AliasesStandFor | eazy_sdk/models/adapters.py:424 | an alias is what it stands for and `Annotated` what it annotates, but an alias inside it is refused |
| LoadingLaws.OneAdapter | eazy_sdk/models/adapters.py:371-387 | a supporting adapter is chosen exactly when no other supports the class |
| LoadingLaws.NoAdapter | eazy_sdk/models/adapters.py:376-377 | without a supporting adapter a class is unsupported |
| LoadingLaws.NamedAdapter | eazy_sdk/models/adapters.py:344-357 | a named adapter is the first of that name and is not replaced by another that would do |
| LoadingLaws.ModelForm | eazy_sdk/models/adapters.py:476-488 | an instance is its own load; anything else goes to the adapter, which plans before it looks at a field |
| LoadingLaws.FieldsLoad | eazy_sdk/models/adapters.py:670-677 | a model that loads is made of the fields that are there, in order, each loaded, and has all required ones |
| LoadingLaws.FieldsFail | eazy_sdk/models/adapters.py:670-677 | otherwise the first field that is missing or does not load says why |
| LoadingLaws.TypedDictLoadsIff | eazy_sdk/models/adapters.py:884-912 | a typed dictionary loads exactly when its model has a plan, no key is unknown and its fields load, and fails otherwise in this order |
| LoadingLaws.TypedDictLoads | eazy_sdk/models/adapters.py:884-912 | a typed dictionary that loads had no unknown key and holds each field under its name |
| LoadingLaws.DataclassLoads | eazy_sdk/models/adapters.py:656-678 | a dataclass is constructed from its fields by wire name, whatever other keys there are |
| Loading.PlanOrRefusal | eazy_sdk/models/adapters.py:675-685 | a plan is its fields compiled one by one, or the failure of the first field that does not compile |
| Loading.ModelAdapterRegistry.Load | eazy_sdk/models/adapters.py:421-486 | `_load` through caches, plans and compiled loaders equals the interpretation, whatever the caches hold |
| Loading.ModelAdapterRegistry.RunLoader | eazy_sdk/models/adapters.py:509-608 | a field's closure, nested annotations going back through `_load` |
| Loading.ModelAdapterRegistry.LoadModel | eazy_sdk/models/adapters.py:656-673 | an adapter's load: mapping check, plan, fields by name or wire name, missing and unknown fields |
| Loading.ModelAdapterRegistry.RunPlan | eazy_sdk/models/adapters.py:663-672 | the loop over a plan loads each present field as its annotation says |
| Loading.ModelAdapterRegistry.LoadPlan | eazy_sdk/models/adapters.py:250-273 | a remembered plan is the plan that building would give; failures are not remembered |
| Loading.ModelAdapterRegistry.Fields | eazy_sdk/models/adapters.py:221-248 | a remembered field list is the one the adapter would read; failures and unsettled classes are not remembered, and a named adapter is asked past the cache |
| Loading.ModelAdapterRegistry.Select | eazy_sdk/models/adapters.py:337-387 | a remembered adapter is the one that scanning would select; none or several is an error |
| Loading.ModelAdapterRegistry.Resolve | eazy_sdk/models/adapters.py:158-165 | what was remembered stays right when open forward references resolve, and failures are asked anew |
| FieldCrypto.FreezeUndoesThawIff | eazy_sdk/crypto/core.py:37-58 | freezing undoes thawing exactly on documents whose names ascend, each once |
| FieldCrypto.SetPathIsUpdate | eazy_sdk/crypto/_compiler.py:338-357 | thaw, assign, freeze replaces exactly the value at the path, on canonical documents |
| FieldCrypto.ReadPath | eazy_sdk/crypto/_compiler.py:314-335 | the walk reads what the recursive definition reads, or fails |
| FieldCrypto.ReadsAlong | eazy_sdk/crypto/_compiler.py:314-335 | a path is read component by component: a name goes to the first member of that name, an index to that item, anything else fails |
| FieldCrypto.OverlapIsPrefix | eazy_sdk/crypto/_compiler.py:255-262 | two paths overlap exactly when one begins the other |
| FieldCrypto.TransformDocument | eazy_sdk/crypto/_compiler.py:135-190 | the loop over fields is the fold of single-field steps, or fails as a whole |
| FieldCrypto.ReadUpdate | eazy_sdk/crypto/_compiler.py:314-357 | what was written is read back |
| FieldCrypto.UpdateBack | eazy_sdk/crypto/_compiler.py:314-357 | writing the old value back restores the document |
| FieldCrypto.ReadOther | eazy_sdk/crypto/_compiler.py:255-262 | a write is not seen at a path that does not overlap |
| FieldCrypto.UpdatesCommute | eazy_sdk/crypto/_compiler.py:255-262 | writes at paths that do not overlap commute |
| FieldCrypto.FieldOrderIrrelevant | eazy_sdk/crypto/_compiler.py:135-190 | the order of the fields decides neither success nor the result |
| FieldCrypto.TransformReads | eazy_sdk/crypto/_compiler.py:135-161 | afterwards each path holds what its own algorithm made of the original value |
| FieldCrypto.TransformKeeps | eazy_sdk/crypto/_compiler.py:135-161 | everything beside the fields is untouched |
| FieldCrypto.RoundTripIff | eazy_sdk/crypto/_compiler.py:135-190 | decrypting an encrypted document restores it exactly when each field's decryption undoes its encryption as frozen |
| FieldCrypto.InverseAlgorithmsRoundTrip | eazy_sdk/crypto/_compiler.py:135-190 | inverse algorithms with canonical ciphertexts restore every document |
| FieldCrypto.UnsortedCiphertextIsLost | eazy_sdk/crypto/_compiler.py:338-357 | inverse algorithms whose ciphertext lists members out of order do not, on any value |
| Pagination.Items | eazy_sdk/api.py:577-613 | which requests are sent, that the elements are the first occurrences of all read, cut at `max_items`, and why it ends |
| Pagination.Pages | eazy_sdk/api.py:553-575 | the same requests as `items` without key and cap, pages whole |
| PageRuns.First | eazy_sdk/api.py:615-620 | one request whatever comes back, and its first element |
| PageRuns.FirstsAreFirst | eazy_sdk/api.py:594-603 | deduplication keeps exactly the elements no earlier one shares a key with, in order |
| PageRuns.RunIsDetermined | eazy_sdk/api.py:577-613 | against one server the contract of `items` allows one outcome |
| PageRuns.BoundedByKeys | eazy_sdk/api.py:577-613 | with `key=`, elements of K keys mean at most K + 1 requests, and an end |
| PageRuns.BoundedByItems | eazy_sdk/api.py:604-607 | `max_items` bounds the requests too |
| PageRuns.PagesGrow | eazy_sdk/pagination.py:254-261 | a page followed by another request gave something new |
| OffsetPages.OffsetsAddUp | eazy_sdk/pagination.py:299-311 | each page is asked for where the pages before it ended: one gap-free run of the list |
| OffsetPages.OffsetTerminates | eazy_sdk/pagination.py:299-311 | no error, and at most one request more than there are elements |
| OffsetPages.OffsetsRunOut | eazy_sdk/pagination.py:299-311 | a run ends exactly with a page that gives nothing new, reaches the stated total or is short of an integer limit, and otherwise moves on by the length of the page |
| OffsetPages.OffsetDrains | eazy_sdk/pagination.py:299-311 | without an integer limit an iteration that ends has read the whole list |
| OffsetPages.OffsetWithLimitIff | eazy_sdk/pagination.py:308-310 | with a limit, for pages of any lengths, it has exactly when each page on the way, up to the one that reaches the end, fills the limit |
| OffsetPages.CappedOffsetIff | eazy_sdk/pagination.py:308-310 | with one page length: exactly when it is no less than the limit, or the first page holds everything |
| OffsetPages.ShortPageLosesTheRest | eazy_sdk/pagination.py:308-310 | a server with one short page in mid-list, whose last element is never read |
| NumberedPages.NumbersGoUp | eazy_sdk/pagination.py:285-296 | the n-th request after the first carries the page number n higher and is otherwise the same |
| NumberedPages.NotNumbered | eazy_sdk/pagination.py:262-269 | a page field that holds no integer is an error as soon as a second page is wanted |
| NumberedPages.NumberedGives | eazy_sdk/pagination.py:285-296 | against a server of numbered pages what is read is the first pages joined, without a gap |
| NumberedPages.NumberedTerminates | eazy_sdk/pagination.py:285-296 | no error, at most one request more than there are pages, and the run ends with the first page that does not call for another |
| NumberedPages.NumberedFinishes | eazy_sdk/pagination.py:285-296 | it does end once enough pages are asked for |
| NumberedPages.NumberedDrainsIff | eazy_sdk/pagination.py:285-296 | everything is read exactly when no page but the last is shorter than an integer size or, by its count of pages, the last |
| NumberedPages.NumberedDrains | eazy_sdk/pagination.py:285-296 | without a size, and with a count of pages that is absent or large enough, everything is read |
| LinkedPages.TokensAreCarried | eazy_sdk/pagination.py:314-320 | each request after the first is the original one with the token of the page before |
| LinkedPages.TokensRunOut | eazy_sdk/pagination.py:314-320 | a cursor run ends exactly with a page that gives nothing new or no token |
| LinkedPages.LinksAreFollowed | eazy_sdk/pagination.py:323-336 | each request after the first is the original one sent to the link of the page before, resolved against the address of that page |
| LinkedPages.LinksRunOut | eazy_sdk/pagination.py:323-336 | a link run ends exactly with nothing new or no link, and fails exactly on a link that is no text or empty |
| LinkedPages.ChainDrains | eazy_sdk/pagination.py:314-336 | over a chain of non-empty pages there is one request a page and everything is read |

## Left out

- Transport handlers, emitters, HTTP libraries, client classes, logging, redaction and error texts: input and output, or one branch each.
- The recursion limit: `_cycle_path` is modelled with unbounded recursion, so a very deep graph that raises there is not captured.
- Set iteration: targets with equal names are told in an order the model leaves open.
- `_ensure_replay_allowed` is known only to refuse when no replay remains; what else it demands is a free choice of the environment.
- Response parsing, signals and location joining are inputs of an exchange; the actual sleep is not modelled, only its argument and length, and a wait that itself raises ends the call without being listed among its waits.
- Attempts.Delay: computes over `real`, floating-point rounding is not modelled.
- The generation counter of managed protection states is taken in one step with the publication of the state, and lock waiting as repeated tries.
- The `asyncio` lock of a session is one section per call; `invalidate`, which does not take it, may fall between the wait and the save.
- Cookie lines and addresses are taken parsed: URL splitting, date parsing, attribute splitting and the digit limit of `int` on `Max-Age` are not modelled; neither are `has_live` and `header_pairs`.
- Model annotations are taken with recursive `type` aliases expanded; an alias that unrolls to itself for ever is not captured.
- Loading.ModelAdapterRegistry.Load: scalar conversion, containers' constructors, enums and foreign adapters are arbitrary functions, and an adapter that calls back into the registry is not captured; `_normalize_dump` and `evolve` are not modelled.
- Weak references: that an entry disappears with its class is not modelled, only the explicit clearing of all caches.
- FieldCrypto.SetPathIsUpdate: the thawed copy is edited as a value, since nothing else refers to it; declared crypto outputs, contexts, signing and the encoded byte stage are not modelled.
- Pagination: `evolve` is a change of one field, a strategy's callables never raise, and the asynchronous loops, which are the same, are not repeated.
- `_compile_dependency_order` repeats the kernel's sort in a weaker form; declaration validators are single checks.
