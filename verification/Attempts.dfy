/**
 One logical call: the attempts its policies allow, the budgets they spend, the redirect rules and the
 backoff. Whatever the transport, the server, the middleware and the solvers do is an `Exchange`.
 */
module Attempts {
  import opened Ordering

  datatype RetryPolicy = RetryPolicy(maxAttempts: int, retryStatuses: set<int>, baseDelay: real, maxDelay: real,
                                     jitter: real) {
    predicate Valid() {
      && maxAttempts >= 1 && baseDelay >= 0.0 && maxDelay >= 0.0 && jitter >= 0.0
      && (maxDelay != 0.0 ==> baseDelay <= maxDelay)
    }

    function Retries(): int { maxAttempts - 1 }
  }

  datatype CallOptions = CallOptions(maxAttempts: int, transportRetries: int, authRetries: int, maxRedirects: int,
                                     retry: RetryPolicy, clientRedirects: bool)
  {
    predicate Valid() {
      && maxAttempts >= 1 && transportRetries >= 0 && authRetries >= 0 && maxRedirects >= 0
      && (clientRedirects ==> maxRedirects != 0) && retry.Valid()
    }
  }

  datatype Resilience = Resilience(retry: RetryPolicy, authRetries: int, maxRedirects: int, clientRedirects: bool) {
    predicate Valid() {
      authRetries >= 0 && maxRedirects >= 0 && (clientRedirects ==> maxRedirects != 0) && retry.Valid()
    }

    function ToCallOptions(): (o: CallOptions)
      requires Valid()
      ensures o.Valid()
    {
      CallOptions(1 + retry.Retries() + authRetries + maxRedirects, retry.Retries(), authRetries,
                              maxRedirects, retry, clientRedirects)
    }
  }

  /** What is fixed when a call starts. `guards` lists the identities of its challenge policies. */
  datatype Call = Call(options: CallOptions, declared: string, idempotent: bool, rawResponse: bool, url: string,
                       guards: seq<string>, maxReplays: map<string, nat>, join: (string, string) -> string)
  {
    ghost predicate Valid() {
      options.Valid() && Distinct(guards) && maxReplays.Keys == Elements(guards)
    }
  }

  // ----- Budgets and states

  function Total(names: seq<string>, of: map<string, int>): int
    requires forall n :: n in names ==> n in of
  {
    if names == [] then 0 else of[names[0]] + Total(names[1..], of)
  }

  datatype Budgets = Budgets(transport: int, auth: int, redirect: int, replays: map<string, int>, hardLimit: int)

  datatype State = State(number: int, kind: string, url: string, verb: Option<string>, omitBody: bool,
                         redirected: bool, retries: int, budgets: Budgets)
  {
    function EffectiveMethod(declared: string): string {
      if verb.Some? then verb.value else declared
    }

    function Next(kind: string): State {
      this.(number := number + 1, kind := kind)
    }
  }

  function Initial(call: Call): State
    requires call.Valid()
  {
    var o := call.options;
    State(1, "initial", call.url, None, false, false, 0,
          Budgets(o.transportRetries, o.authRetries, o.maxRedirects, call.maxReplays,
                  o.maxAttempts + Total(call.guards, call.maxReplays)))
  }

  // ----- What one attempt meets

  datatype Proposal = NoProposal | RetryAttempt(kind: string) | RedirectTo(url: string) | OtherAction

  datatype Outcome = Success | ErrorCase(reauth: bool) | Unexpected | Malformed | NoCases

  datatype Exchange =
    | Raises
    | TransportError(proposed: bool, commitRaises: bool)
    | Response(status: int, responseUrl: string, location: Option<string>, proposal: Proposal, signal: Option<string>,
               replaySafe: bool, outcome: Outcome, authRefreshable: bool, redirectDeclared: bool,
               metaRefresh: Option<string>, commitRaises: bool)

  datatype CallError = Propagated | UnsafeReplay | RedirectLimit | ReplayDenied

  datatype Decision =
    | Continue(state: State, waitAttempt: Option<int>)
    | Stop
    | Fail(error: CallError)

  datatype Transition =
    | Retry(kind: string, consumesTransport: bool)
    | Redirect(url: string, verb: Option<string>, omitBody: bool)
    | Reaction(guard: string)
    | AuthRefresh
    | Terminal
    | Rejected
    | Refused(error: CallError)

  const REDIRECT_STATUSES := {301, 302, 303, 307, 308}

  predicate StaleSession(x: Exchange)
    requires x.Response?
  {
    x.status == 401 || (x.outcome.ErrorCase? && x.outcome.reauth)
  }

  /** The one transition a response leads to, in the order the source asks. */
  function DecideResponse(call: Call, s: State, x: Exchange): Transition
    requires x.Response?
  {
    var b := s.budgets;
    if x.proposal.RetryAttempt? then
      if !call.idempotent then Refused(UnsafeReplay) else Retry(x.proposal.kind, false)
    else if x.proposal.RedirectTo? then
      if b.redirect <= 0 then Refused(RedirectLimit) else Redirect(call.join(s.url, x.proposal.url), None, false)
    else if x.status in call.options.retry.retryStatuses && b.transport > 0 && s.number < b.hardLimit then
      if !call.idempotent then Refused(UnsafeReplay) else Retry("response-retry", true)
    else if x.signal.Some? then Reaction(x.signal.value)
    else if StaleSession(x) && b.auth > 0 && s.number < b.hardLimit && x.authRefreshable then
      if !call.idempotent then Refused(UnsafeReplay) else AuthRefresh
    else if x.status in REDIRECT_STATUSES && x.location.Some? && !x.redirectDeclared then
      if b.redirect <= 0 then Refused(RedirectLimit)
      else
        var target := call.join(if x.responseUrl != "" then x.responseUrl else s.url, x.location.value);
        var effective := s.EffectiveMethod(call.declared);
        if (x.status == 303 && effective != "HEAD") || (x.status in {301, 302} && effective == "POST")
        then Redirect(target, Some("GET"), true)
        else Redirect(target, None, false)
    else if call.options.clientRedirects && !call.rawResponse && x.status == 200
         && (x.outcome.Unexpected? || x.outcome.Malformed?)
         && x.metaRefresh.Some? && x.metaRefresh.value != s.url then
      if b.redirect <= 0 then Refused(RedirectLimit) else Redirect(x.metaRefresh.value, Some("GET"), true)
    else if call.rawResponse || x.outcome.Success? then Terminal
    else Rejected
  }

  // ----- The policies

  function TransportRetry(call: Call, s: State, proposed: bool): Decision {
    if s.budgets.transport <= 0 && !proposed then Fail(Propagated)
    else if !call.idempotent then Fail(if call.options.retry.Retries() != 0 then UnsafeReplay else Propagated)
    else if s.budgets.transport <= 0 then Continue(s.Next("transport-retry"), None)
    else SpendTransport(s, "transport-retry")
  }

  function SpendTransport(s: State, kind: string): Decision {
    Continue(s.Next(kind).(budgets := s.budgets.(transport := s.budgets.transport - 1), retries := s.retries + 1),
             Some(s.retries + 1))
  }

  function FollowRedirect(s: State, url: string, verb: Option<string>, omitBody: bool): Decision {
    Continue(s.Next("redirect").(budgets := s.budgets.(redirect := s.budgets.redirect - 1),
                                 url := url, redirected := true,
                                 verb := if verb.Some? then verb else s.verb,
                                 omitBody := s.omitBody || omitBody), None)
  }

  function RefreshAuth(s: State): Decision {
    Continue(s.Next("auth-refresh").(budgets := s.budgets.(auth := s.budgets.auth - 1)), None)
  }

  /** A challenged attempt; `_ensure_replay_allowed` also demands what `safe` stands for. */
  function React(s: State, guard: string, safe: bool): Decision {
    if guard !in s.budgets.replays || s.budgets.replays[guard] <= 0 || !safe then Fail(ReplayDenied)
    else
      var left := s.budgets.replays[guard := s.budgets.replays[guard] - 1];
      Continue(s.Next("reaction").(budgets := s.budgets.(replays := left)), None)
  }

  function Respond(call: Call, s: State, x: Exchange): Decision
    requires x.Response?
  {
    match DecideResponse(call, s, x)
    case Retry(kind, consumes) => if consumes then SpendTransport(s, kind) else Continue(s.Next(kind), None)
    case Redirect(url, verb, omitBody) => FollowRedirect(s, url, verb, omitBody)
    case Reaction(guard) => React(s, guard, x.replaySafe)
    case AuthRefresh => RefreshAuth(s)
    case Terminal => Stop
    case Rejected => Fail(Propagated)
    case Refused(error) => Fail(error)
  }

  /** One pass of the loop body: prepare, send, decide, commit. */
  function Attempt(call: Call, s: State, x: Exchange): Decision {
    match x
    case Raises => Fail(Propagated)
    case TransportError(proposed, commitRaises) => Commit(TransportRetry(call, s, proposed), commitRaises)
    case Response(_, _, _, _, _, _, _, _, _, _, commitRaises) => Commit(Respond(call, s, x), commitRaises)
  }

  function Commit(d: Decision, raises: bool): Decision {
    if d.Continue? && raises then Fail(Propagated) else d
  }

  // ----- Runs

  /** The state the call is about to attempt after `xs`; `None` once it has ended. */
  function After(call: Call, xs: seq<Exchange>): Option<State>
    requires call.Valid()
  {
    if xs == [] then Some(Initial(call))
    else
      var before := After(call, xs[..|xs| - 1]);
      if before.None? || before.value.number > before.value.budgets.hardLimit then None
      else
        var d := Attempt(call, before.value, xs[|xs| - 1]);
        if d.Continue? then Some(d.state) else None
  }

  /** A replay that a middleware proposed and no budget pays for. */
  predicate Free(s: State, x: Exchange) {
    (x.TransportError? && s.budgets.transport <= 0) || (x.Response? && x.proposal.RetryAttempt?)
  }

  function FreeReplays(call: Call, xs: seq<Exchange>): nat
    requires call.Valid()
  {
    if xs == [] then 0
    else
      var before := After(call, xs[..|xs| - 1]);
      FreeReplays(call, xs[..|xs| - 1]) + (if before.Some? && Free(before.value, xs[|xs| - 1]) then 1 else 0)
  }

  /** Budget units gone since the call started. */
  function Spent(call: Call, s: State): int
    requires call.Valid() && s.budgets.replays.Keys == call.maxReplays.Keys
  {
    var o, b := call.options, s.budgets;
    (o.transportRetries - b.transport) + (o.authRetries - b.auth) + (o.maxRedirects - b.redirect)
    + (Total(call.guards, call.maxReplays) - Total(call.guards, b.replays))
  }

  ghost predicate WithinBudget(call: Call, s: State) {
    var o, b := call.options, s.budgets;
    && 0 <= b.transport <= o.transportRetries && 0 <= b.auth <= o.authRetries && 0 <= b.redirect <= o.maxRedirects
    && b.replays.Keys == call.maxReplays.Keys
    && (forall g :: g in b.replays ==> 0 <= b.replays[g] <= call.maxReplays[g])
    && s.retries == o.transportRetries - b.transport
    && b.hardLimit == call.options.maxAttempts + (if call.Valid() then Total(call.guards, call.maxReplays) else 0)
  }

  lemma {:induction false} TotalChange(names: seq<string>, of: map<string, int>, g: string, v: int)
    requires Distinct(names) && (forall n :: n in names ==> n in of) && g in of
    ensures Total(names, of[g := v]) == Total(names, of) + (if g in names then v - of[g] else 0)
  {
    if names != [] {
      assert names == [names[0]] + names[1..];
      TotalChange(names[1..], of, g, v);
    }
  }

  lemma {:induction false} TotalMonotone(names: seq<string>, a: map<string, int>, b: map<string, int>)
    requires forall n :: n in names ==> n in a && n in b && a[n] <= b[n]
    ensures Total(names, a) <= Total(names, b)
  {
    if names != [] {
      TotalMonotone(names[1..], a, b);
    }
  }

  lemma StepAdvances(call: Call, s: State, x: Exchange)
    requires Attempt(call, s, x).Continue?
    ensures Attempt(call, s, x).state.number == s.number + 1
    ensures Attempt(call, s, x).state.budgets.hardLimit == s.budgets.hardLimit
    ensures Attempt(call, s, x).waitAttempt.Some? ==> Attempt(call, s, x).waitAttempt.value == s.retries + 1
  {
  }

  lemma ReactionKeepsBudget(call: Call, s: State, g: string)
    requires call.Valid() && WithinBudget(call, s) && React(s, g, true).Continue?
    ensures WithinBudget(call, React(s, g, true).state)
    ensures Spent(call, React(s, g, true).state) == Spent(call, s) + 1
  {
    TotalChange(call.guards, s.budgets.replays, g, s.budgets.replays[g] - 1);
  }

  lemma UnitKeepsBudget(call: Call, s: State, kind: string, url: string, verb: Option<string>, omitBody: bool)
    requires call.Valid() && WithinBudget(call, s)
    ensures s.budgets.transport > 0 ==> var s' := SpendTransport(s, kind).state;
              WithinBudget(call, s') && Spent(call, s') == Spent(call, s) + 1
    ensures s.budgets.redirect > 0 ==> var s' := FollowRedirect(s, url, verb, omitBody).state;
              WithinBudget(call, s') && Spent(call, s') == Spent(call, s) + 1
    ensures s.budgets.auth > 0 ==> var s' := RefreshAuth(s).state;
              WithinBudget(call, s') && Spent(call, s') == Spent(call, s) + 1
  {
  }

  /** Each transition that spends a unit asked for one first. */
  lemma TransitionAsks(call: Call, s: State, x: Exchange)
    requires x.Response?
    ensures var t := DecideResponse(call, s, x);
            && (t.Retry? ==> t.consumesTransport == !Free(s, x) && (t.consumesTransport ==> s.budgets.transport > 0))
            && (t.Redirect? ==> s.budgets.redirect > 0 && !Free(s, x))
            && (t.AuthRefresh? ==> s.budgets.auth > 0 && !Free(s, x))
            && (t.Reaction? ==> !Free(s, x))
  {
  }

  lemma RespondKeepsBudget(call: Call, s: State, x: Exchange)
    requires call.Valid() && WithinBudget(call, s) && x.Response? && Respond(call, s, x).Continue?
    ensures WithinBudget(call, Respond(call, s, x).state)
    ensures Spent(call, Respond(call, s, x).state) == Spent(call, s) + (if Free(s, x) then 0 else 1)
  {
    TransitionAsks(call, s, x);
    match DecideResponse(call, s, x)
    case Retry(kind, _) => UnitKeepsBudget(call, s, kind, "", None, false);
    case Redirect(url, verb, omitBody) => UnitKeepsBudget(call, s, "", url, verb, omitBody);
    case AuthRefresh => UnitKeepsBudget(call, s, "", "", None, false);
    case Reaction(guard) => ReactionKeepsBudget(call, s, guard);
    case _ =>
  }

  lemma StepKeepsBudget(call: Call, s: State, x: Exchange)
    requires call.Valid() && WithinBudget(call, s) && Attempt(call, s, x).Continue?
    ensures WithinBudget(call, Attempt(call, s, x).state)
    ensures Attempt(call, s, x).state.number == s.number + 1
    ensures Spent(call, Attempt(call, s, x).state) == Spent(call, s) + (if Free(s, x) then 0 else 1)
  {
    StepAdvances(call, s, x);
    if x.Response? {
      RespondKeepsBudget(call, s, x);
    }
  }

  /** In every run no budget goes negative, and every attempt after the first was paid for by one unit of
      one budget or proposed by a middleware. */
  lemma {:induction false} EveryAttemptIsPaidFor(call: Call, xs: seq<Exchange>)
    requires call.Valid() && After(call, xs).Some?
    ensures WithinBudget(call, After(call, xs).value)
    ensures After(call, xs).value.number == |xs| + 1
    ensures |xs| == Spent(call, After(call, xs).value) + FreeReplays(call, xs)
  {
    if xs != [] {
      var front := xs[..|xs| - 1];
      EveryAttemptIsPaidFor(call, front);
      StepKeepsBudget(call, After(call, front).value, xs[|xs| - 1]);
    }
  }

  // ----- The hard limit

  predicate HitsLimit(call: Call, xs: seq<Exchange>)
    requires call.Valid()
  {
    After(call, xs).Some? && After(call, xs).value.number > After(call, xs).value.budgets.hardLimit
  }

  /** Under the options that `Resilience` lowers to and without middleware replays, the attempts still
      allowed are exactly the budget units left, so the limit is never hit and the limit tests of
      `decide_response` add nothing to its budget tests. */
  lemma ResilienceLimitIsBudget(call: Call, resilience: Resilience, xs: seq<Exchange>)
    requires resilience.Valid() && call.Valid() && call.options == resilience.ToCallOptions()
    requires After(call, xs).Some? && FreeReplays(call, xs) == 0
    ensures var s := After(call, xs).value; var b := s.budgets;
            && s.budgets.replays.Keys == call.maxReplays.Keys
            && b.hardLimit - s.number == b.transport + b.auth + b.redirect + Total(call.guards, b.replays)
            && (b.transport > 0 || b.auth > 0 ==> s.number < b.hardLimit)
    ensures !HitsLimit(call, xs)
  {
    EveryAttemptIsPaidFor(call, xs);
    TotalNonNegative(call.guards, After(call, xs).value.budgets.replays);
  }

  lemma {:induction false} TotalNonNegative(names: seq<string>, of: map<string, int>)
    requires forall n :: n in names ==> n in of && of[n] >= 0
    ensures Total(names, of) >= 0
    ensures Total(names, of) == 0 ==> forall n :: n in names ==> of[n] == 0
  {
    if names != [] {
      assert names == [names[0]] + names[1..];
      TotalNonNegative(names[1..], of);
    }
  }

  /** When a call can run into its limit although no middleware proposes a replay: budgets worth more
      than the limit, one of them spent without asking about the limit. */
  predicate CanExhaust(call: Call)
    requires call.Valid()
  {
    var o := call.options;
    || o.maxRedirects >= o.maxAttempts
    || (&& call.idempotent && o.transportRetries + o.authRetries + o.maxRedirects >= o.maxAttempts
        && o.transportRetries + o.maxRedirects + Total(call.guards, call.maxReplays) >= 1)
  }

  /** A call that is not idempotent spends only redirects and guard replays. */
  lemma {:induction false} NonIdempotentSpends(call: Call, xs: seq<Exchange>)
    requires call.Valid() && !call.idempotent && After(call, xs).Some?
    ensures After(call, xs).value.budgets.transport == call.options.transportRetries
    ensures After(call, xs).value.budgets.auth == call.options.authRetries
  {
    if xs != [] {
      NonIdempotentSpends(call, xs[..|xs| - 1]);
    }
  }

  lemma LimitNeedsBudget(call: Call, xs: seq<Exchange>)
    requires call.Valid() && HitsLimit(call, xs) && FreeReplays(call, xs) == 0
    ensures CanExhaust(call)
  {
    var s := After(call, xs).value;
    EveryAttemptIsPaidFor(call, xs);
    TotalNonNegative(call.guards, s.budgets.replays);
    TotalNonNegative(call.guards, call.maxReplays);
    if !call.idempotent {
      NonIdempotentSpends(call, xs);
    } else {
      var front := xs[..|xs| - 1];
      EveryAttemptIsPaidFor(call, front);
      TotalMonotone(call.guards, After(call, front).value.budgets.replays, call.maxReplays);
      LastUnitIsUnguarded(call, After(call, front).value, xs[|xs| - 1]);
    }
  }

  /** An attempt past the limit is paid for by a unit that is spent without asking about the limit. */
  lemma LastUnitIsUnguarded(call: Call, s: State, x: Exchange)
    requires call.Valid() && WithinBudget(call, s) && s.number >= s.budgets.hardLimit
    requires Attempt(call, s, x).Continue? && !Free(s, x)
    ensures s.budgets.transport + s.budgets.redirect + Total(call.guards, s.budgets.replays) >= 1
  {
    TotalNonNegative(call.guards, s.budgets.replays);
  }

  /** Units that may be spent at the limit itself, and units that may not. */
  function Unguarded(call: Call, s: State): int
    requires call.Valid() && WithinBudget(call, s)
  {
    (if call.idempotent then s.budgets.transport else 0) + s.budgets.redirect + Total(call.guards, s.budgets.replays)
  }

  function Guarded(call: Call, s: State): int {
    if call.idempotent then s.budgets.auth else 0
  }

  lemma {:induction false} FreshStatus(s: set<int>, from: int) returns (x: int)
    ensures x !in s && x >= from
    decreases |s|
  {
    x := from;
    if from in s {
      x := FreshStatus(s - {from}, from + 1);
    }
  }

  /** An exchange that makes the call spend one unit, of the session refresh while that is allowed. */
  lemma SpendingExchange(call: Call, s: State) returns (x: Exchange)
    requires call.Valid() && WithinBudget(call, s) && s.number <= s.budgets.hardLimit
    requires (s.number < s.budgets.hardLimit && Guarded(call, s) > 0) || Unguarded(call, s) > 0
    ensures Attempt(call, s, x).Continue? && !Free(s, x) && WithinBudget(call, Attempt(call, s, x).state)
    ensures var s' := Attempt(call, s, x).state;
            if s.number < s.budgets.hardLimit && Guarded(call, s) > 0
            then Guarded(call, s') == Guarded(call, s) - 1 && Unguarded(call, s') == Unguarded(call, s)
            else Guarded(call, s') == Guarded(call, s) && Unguarded(call, s') == Unguarded(call, s) - 1
  {
    var status := FreshStatus(call.options.retry.retryStatuses + REDIRECT_STATUSES, 0);
    var quiet := Response(status, "", None, NoProposal, None, true, ErrorCase(true), true, false, None, false);
    if s.number < s.budgets.hardLimit && Guarded(call, s) > 0 {
      x := quiet;
    } else if s.budgets.redirect > 0 {
      x := quiet.(proposal := RedirectTo(""));
    } else if call.idempotent && s.budgets.transport > 0 {
      x := TransportError(false, false);
    } else {
      TotalNonNegative(call.guards, s.budgets.replays);
      var g := PositiveName(call.guards, s.budgets.replays);
      x := quiet.(signal := Some(g));
      TotalChange(call.guards, s.budgets.replays, g, s.budgets.replays[g] - 1);
    }
    StepKeepsBudget(call, s, x);
  }

  lemma {:induction false} PositiveName(names: seq<string>, of: map<string, int>) returns (n: string)
    requires (forall n :: n in names ==> n in of && of[n] >= 0) && Total(names, of) > 0
    ensures n in names && of[n] > 0
  {
    if of[names[0]] > 0 {
      n := names[0];
    } else {
      n := PositiveName(names[1..], of);
    }
  }

  lemma {:induction false} Exhaust(call: Call, xs: seq<Exchange>) returns (all: seq<Exchange>)
    requires call.Valid() && After(call, xs).Some? && FreeReplays(call, xs) == 0
    requires WithinBudget(call, After(call, xs).value)
    requires var s := After(call, xs).value;
             s.number > s.budgets.hardLimit
             || (Unguarded(call, s) >= 1 && Unguarded(call, s) + Guarded(call, s) >= s.budgets.hardLimit + 1 - s.number)
    ensures HitsLimit(call, all) && FreeReplays(call, all) == 0
    decreases After(call, xs).value.budgets.hardLimit + 1 - After(call, xs).value.number
  {
    var s := After(call, xs).value;
    if s.number > s.budgets.hardLimit {
      all := xs;
    } else {
      var x := SpendingExchange(call, s);
      assert (xs + [x])[..|xs|] == xs;
      StepKeepsBudget(call, s, x);
      all := Exhaust(call, xs + [x]);
    }
  }

  /** Some run without middleware replays ends in the attempt-limit error exactly when the options let
      the budgets outgrow the limit. */
  lemma LimitReachableIff(call: Call)
    requires call.Valid()
    ensures CanExhaust(call) <==> exists xs :: HitsLimit(call, xs) && FreeReplays(call, xs) == 0
  {
    if CanExhaust(call) {
      TotalNonNegative(call.guards, call.maxReplays);
      EveryAttemptIsPaidFor(call, []);
      var xs := Exhaust(call, []);
    }
    if xs :| HitsLimit(call, xs) && FreeReplays(call, xs) == 0 {
      LimitNeedsBudget(call, xs);
    }
  }

  // ----- Redirects

  /** The method of every attempt is the declared one, or GET without a body. */
  lemma {:induction false} MethodOnlyBecomesGet(call: Call, xs: seq<Exchange>)
    requires call.Valid() && After(call, xs).Some?
    ensures After(call, xs).value.verb in {None, Some("GET")}
    ensures After(call, xs).value.verb == Some("GET") <==> After(call, xs).value.omitBody
  {
    if xs != [] {
      MethodOnlyBecomesGet(call, xs[..|xs| - 1]);
    }
  }

  /** Section 15.4 of RFC 9110: the method of the request that follows a redirect, with the rewriting of POST
      that it allows a client for 301 and 302. */
  function RedirectedMethod(status: int, verb: string): string {
    match status
    case 303 => if verb == "HEAD" then "HEAD" else "GET"
    case 301 => if verb == "POST" then "GET" else verb
    case 302 => if verb == "POST" then "GET" else verb
    case _ => verb
  }

  /** A redirect status is followed with the method that RFC 9110 gives, and the body goes when the method is
      rewritten. A request without a body changes nothing here: GET answered by 303 stays GET. */
  lemma RedirectsFollowRfc9110(call: Call, s: State, x: Exchange)
    requires x.Response? && x.status in REDIRECT_STATUSES && !x.proposal.RedirectTo?
    requires DecideResponse(call, s, x).Redirect?
    ensures Respond(call, s, x).Continue?
    ensures var before := s.EffectiveMethod(call.declared); var next := Respond(call, s, x).state;
            && next.EffectiveMethod(call.declared) == RedirectedMethod(x.status, before)
            && (before != next.EffectiveMethod(call.declared) ==> next.omitBody)
            && (x.status in {307, 308} ==> next.omitBody == s.omitBody)
            && next.url == call.join(if x.responseUrl != "" then x.responseUrl else s.url, x.location.value)
  {
    var before := s.EffectiveMethod(call.declared);
    assert x.location.Some?;
    if x.status == 303 && before != "HEAD" {
      assert Respond(call, s, x).state.verb == Some("GET");
    } else if x.status in {301, 302} && before == "POST" {
      assert Respond(call, s, x).state.verb == Some("GET");
    } else {
      assert Respond(call, s, x).state.verb == s.verb;
    }
  }

  /** The declared method, rewritten by section 15.4 of RFC 9110 once for each redirect status followed in the run;
      a redirect that a page asks for makes it GET, one that a middleware proposes keeps it. */
  function MethodAfter(call: Call, xs: seq<Exchange>): string
    requires call.Valid() && After(call, xs).Some?
  {
    if xs == [] then call.declared
    else
      var front, x := xs[..|xs| - 1], xs[|xs| - 1];
      var verb := MethodAfter(call, front);
      if !x.Response? || !DecideResponse(call, After(call, front).value, x).Redirect? then verb
      else if x.proposal.RedirectTo? then verb
      else if x.status in REDIRECT_STATUSES then RedirectedMethod(x.status, verb)
      else "GET"
  }

  /** In every run the next attempt uses that method. */
  lemma {:induction false} MethodFollowsRfc9110(call: Call, xs: seq<Exchange>)
    requires call.Valid() && After(call, xs).Some?
    ensures After(call, xs).value.EffectiveMethod(call.declared) == MethodAfter(call, xs)
  {
    if xs != [] {
      var front, x := xs[..|xs| - 1], xs[|xs| - 1];
      var s := After(call, front).value;
      MethodFollowsRfc9110(call, front);
      if x.Response? && DecideResponse(call, s, x).Redirect? {
        if !x.proposal.RedirectTo? && x.status in REDIRECT_STATUSES {
          RedirectsFollowRfc9110(call, s, x);
        }
      }
    }
  }

  /** Once the body is dropped it stays dropped. */
  lemma {:induction false} DroppedBodyStaysDropped(call: Call, xs: seq<Exchange>, k: nat)
    requires call.Valid() && After(call, xs).Some? && k <= |xs|
    ensures After(call, xs[..k]).Some?
    ensures After(call, xs[..k]).value.omitBody ==> After(call, xs).value.omitBody
    ensures After(call, xs[..k]).value.verb == Some("GET") ==> After(call, xs).value.verb == Some("GET")
    decreases |xs|
  {
    if k == |xs| {
      assert xs[..k] == xs;
    } else {
      var front := xs[..|xs| - 1];
      DroppedBodyStaysDropped(call, front, k);
      assert front[..k] == xs[..k];
      MethodOnlyBecomesGet(call, front);
    }
  }

  lemma {:induction false} HeadStaysHead(call: Call, xs: seq<Exchange>)
    requires call.Valid() && After(call, xs).Some? && call.declared == "HEAD" && !call.options.clientRedirects
    ensures After(call, xs).value.EffectiveMethod(call.declared) == "HEAD" && !After(call, xs).value.omitBody
  {
    MethodOnlyBecomesGet(call, xs);
    if xs != [] {
      HeadStaysHead(call, xs[..|xs| - 1]);
      MethodOnlyBecomesGet(call, xs[..|xs| - 1]);
    }
  }

  /** Without guards, a call that is not idempotent is repeated only to follow redirects. */
  lemma {:induction false} NonIdempotentOnlyRedirects(call: Call, xs: seq<Exchange>)
    requires call.Valid() && !call.idempotent && call.guards == [] && After(call, xs).Some? && xs != []
    ensures After(call, xs).value.kind == "redirect" && After(call, xs).value.redirected
    ensures |xs| == call.options.maxRedirects - After(call, xs).value.budgets.redirect
  {
    var front := xs[..|xs| - 1];
    EveryAttemptIsPaidFor(call, front);
    if front != [] {
      NonIdempotentOnlyRedirects(call, front);
    }
  }

  // ----- Backoff

  /** The arguments of `wait`, in the order of the calls. */
  function Waits(call: Call, xs: seq<Exchange>): seq<int>
    requires call.Valid()
  {
    if xs == [] then []
    else
      var front := xs[..|xs| - 1];
      var before := After(call, front);
      if before.None? || before.value.number > before.value.budgets.hardLimit then Waits(call, front)
      else
        var d := Attempt(call, before.value, xs[|xs| - 1]);
        Waits(call, front) + (if d.Continue? && d.waitAttempt.Some? then [d.waitAttempt.value] else [])
  }

  /** `wait` is called with 1, 2, 3, ..., once for each transport unit spent. */
  lemma {:induction false} WaitsCountUp(call: Call, xs: seq<Exchange>)
    requires call.Valid() && After(call, xs).Some?
    ensures |Waits(call, xs)| == call.options.transportRetries - After(call, xs).value.budgets.transport
    ensures |Waits(call, xs)| == After(call, xs).value.retries
    ensures forall i :: 0 <= i < |Waits(call, xs)| ==> Waits(call, xs)[i] == i + 1
  {
    if xs != [] {
      WaitsCountUp(call, xs[..|xs| - 1]);
    }
  }

  function Pow2(n: nat): (p: nat)
    ensures p >= 1
  {
    if n == 0 then 1 else 2 * Pow2(n - 1)
  }

  function Capped(delay: real, maxDelay: real): real {
    if maxDelay != 0.0 && maxDelay < delay then maxDelay else delay
  }

  function Jittered(delay: real, jitter: real, draw: real): real {
    if jitter != 0.0 then delay + draw * jitter else delay
  }

  /** The seconds `wait(retryNumber)` sleeps when the random source draws `draw`. */
  function Delay(p: RetryPolicy, retryNumber: int, draw: real): real
    requires retryNumber >= 1
  {
    Jittered(Capped(p.baseDelay * (Pow2(retryNumber - 1) as real), p.maxDelay), p.jitter, draw)
  }

  /** What the first `n` waits of a call sleep, given the random draws. */
  function Sleeps(p: RetryPolicy, draws: nat -> real, n: nat): (r: seq<real>)
    ensures |r| == n
  {
    if n == 0 then [] else Sleeps(p, draws, n - 1) + [Delay(p, n, draws(n - 1))]
  }

  /** What a call sleeps in all, given the arguments of its waits and the random draws. */
  function Slept(p: RetryPolicy, waits: seq<int>, draws: nat -> real): real
    requires forall i :: 0 <= i < |waits| ==> waits[i] >= 1
  {
    if waits == [] then 0.0
    else
      var n: nat := |waits| - 1;
      Slept(p, waits[..n], draws) + Delay(p, waits[n], draws(n))
  }

  function Sum(xs: seq<real>): real {
    if xs == [] then 0.0 else Sum(xs[..|xs| - 1]) + xs[|xs| - 1]
  }

  /** At most `max_delay + jitter` a wait when capped; otherwise the geometric sum and `jitter` a wait. */
  function BackoffLimit(p: RetryPolicy, n: nat): real {
    if p.maxDelay != 0.0 then (n as real) * (p.maxDelay + p.jitter)
    else p.baseDelay * (Pow2(n) as real - 1.0) + (n as real) * p.jitter
  }

  /** At least `base_delay` a wait; uncapped, the geometric sum. */
  function BackoffFloor(p: RetryPolicy, n: nat): real {
    if p.maxDelay != 0.0 then (n as real) * p.baseDelay else p.baseDelay * (Pow2(n) as real - 1.0)
  }

  lemma {:induction false} BackoffBound(p: RetryPolicy, draws: nat -> real, n: nat)
    requires p.Valid() && forall i: nat :: 0.0 <= draws(i) < 1.0
    ensures 0.0 <= BackoffFloor(p, n) <= Sum(Sleeps(p, draws, n)) <= BackoffLimit(p, n)
  {
    if n != 0 {
      var m: nat := n - 1;
      BackoffBound(p, draws, m);
      DelayBound(p, n, draws(m));
      assert Sleeps(p, draws, n)[..m] == Sleeps(p, draws, m);
      LimitGrows(p, m);
      FloorGrows(p, m);
    }
  }

  lemma {:induction false} SleptIsSum(p: RetryPolicy, waits: seq<int>, draws: nat -> real)
    requires forall i :: 0 <= i < |waits| ==> waits[i] == i + 1
    ensures Slept(p, waits, draws) == Sum(Sleeps(p, draws, |waits|))
    decreases |waits|
  {
    if waits != [] {
      var n: nat := |waits| - 1;
      SleptIsSum(p, waits[..n], draws);
      assert Sleeps(p, draws, |waits|)[..n] == Sleeps(p, draws, n);
    }
  }

  /** Ended or not, a run has waited once for each transport unit spent, never more often than there were. */
  lemma {:induction false} WaitsOfEveryRun(call: Call, xs: seq<Exchange>)
    requires call.Valid()
    ensures |Waits(call, xs)| <= call.options.transportRetries
    ensures forall i :: 0 <= i < |Waits(call, xs)| ==> Waits(call, xs)[i] == i + 1
    decreases |xs|
  {
    if After(call, xs).Some? {
      WaitsCountUp(call, xs);
      EveryAttemptIsPaidFor(call, xs);
    } else {
      WaitsOfEveryRun(call, xs[..|xs| - 1]);
    }
  }

  /** Every run of a call, ended or not, sleeps within the bound for the transport units it spent. */
  lemma CallBackoffBound(call: Call, xs: seq<Exchange>, draws: nat -> real)
    requires call.Valid() && forall i: nat :: 0.0 <= draws(i) < 1.0
    ensures var waits, retry := Waits(call, xs), call.options.retry;
            && (forall i :: 0 <= i < |waits| ==> waits[i] >= 1)
            && 0.0 <= BackoffFloor(retry, |waits|) <= Slept(retry, waits, draws) <= BackoffLimit(retry, |waits|)
            && |waits| <= call.options.transportRetries
            && (After(call, xs).Some? ==>
                  |waits| == call.options.transportRetries - After(call, xs).value.budgets.transport)
  {
    WaitsOfEveryRun(call, xs);
    SleptIsSum(call.options.retry, Waits(call, xs), draws);
    BackoffBound(call.options.retry, draws, |Waits(call, xs)|);
    if After(call, xs).Some? {
      WaitsCountUp(call, xs);
    }
  }

  /** What one more wait adds to the bound is what bounds that wait. */
  lemma LimitGrows(p: RetryPolicy, m: nat)
    ensures BackoffLimit(p, m + 1) == BackoffLimit(p, m) + DelayLimit(p, m + 1)
  {
    if p.maxDelay != 0.0 {
      OneMore(m as real, p.maxDelay + p.jitter);
    } else {
      OneMore(m as real, p.jitter);
      Doubled(p.baseDelay, Pow2(m) as real);
    }
  }

  lemma FloorGrows(p: RetryPolicy, m: nat)
    ensures BackoffFloor(p, m + 1) == BackoffFloor(p, m) + DelayFloor(p, m + 1)
  {
    if p.maxDelay != 0.0 {
      OneMore(m as real, p.baseDelay);
    } else {
      Doubled(p.baseDelay, Pow2(m) as real);
    }
  }

  lemma OneMore(count: real, unit: real)
    ensures (count + 1.0) * unit == count * unit + unit
  {
  }

  lemma Doubled(base: real, power: real)
    ensures base * (2.0 * power - 1.0) == base * (power - 1.0) + base * power
  {
  }

  function DelayLimit(p: RetryPolicy, n: nat): real
    requires n >= 1
  {
    if p.maxDelay != 0.0 then p.maxDelay + p.jitter else p.baseDelay * (Pow2(n - 1) as real) + p.jitter
  }

  function DelayFloor(p: RetryPolicy, n: nat): real
    requires n >= 1
  {
    if p.maxDelay != 0.0 then p.baseDelay else p.baseDelay * (Pow2(n - 1) as real)
  }

  lemma DelayBound(p: RetryPolicy, n: int, draw: real)
    requires p.Valid() && n >= 1 && 0.0 <= draw < 1.0
    ensures 0.0 <= DelayFloor(p, n) <= Delay(p, n, draw) <= DelayLimit(p, n)
  {
    var grown := p.baseDelay * (Pow2(n - 1) as real);
    Scaled(p.baseDelay, Pow2(n - 1) as real);
    AtLeastOnce(p.baseDelay, Pow2(n - 1) as real);
    assert DelayFloor(p, n) <= Capped(grown, p.maxDelay);
    JitterBound(Capped(p.baseDelay * (Pow2(n - 1) as real), p.maxDelay), p.jitter, draw);
  }

  /** The first wait is `base_delay`, each further one twice the one before up to `max_delay`, and the jitter comes
      on top. */
  lemma DelaysDouble(p: RetryPolicy, n: int, draw: real)
    requires p.Valid() && n >= 1
    ensures Delay(p, 1, 0.0) == p.baseDelay
    ensures var twice := 2.0 * Delay(p, n, 0.0);
            Delay(p, n + 1, 0.0) == if p.maxDelay != 0.0 && p.maxDelay < twice then p.maxDelay else twice
    ensures Delay(p, n, draw) == Delay(p, n, 0.0) + draw * p.jitter
  {
    assert Pow2(0) == 1 && Pow2(n) == 2 * Pow2(n - 1);
    TwiceAsMuch(p.baseDelay, Pow2(n - 1) as real);
    assert p.baseDelay * (Pow2(0) as real) == p.baseDelay;
  }

  lemma TwiceAsMuch(base: real, power: real)
    ensures base * (2.0 * power) == 2.0 * (base * power)
  {
  }

  lemma AtLeastOnce(base: real, power: real)
    requires base >= 0.0 && power >= 1.0
    ensures base * power >= base
  {
    Scaled(base, power - 1.0);
  }

  lemma Scaled(a: real, b: real)
    requires a >= 0.0 && b >= 0.0
    ensures a * b >= 0.0
  {
  }

  lemma JitterBound(delay: real, jitter: real, draw: real)
    requires 0.0 <= draw < 1.0 && jitter >= 0.0
    ensures delay <= Jittered(delay, jitter, draw) <= delay + jitter
  {
    assert 0.0 <= draw * jitter <= 1.0 * jitter;
  }

  // ----- The loop

  datatype End = Returned | Raised(error: CallError) | AttemptLimit

  /** The call has an attempt to make. */
  predicate Underway(call: Call, xs: seq<Exchange>)
    requires call.Valid()
  {
    After(call, xs).Some? && !HitsLimit(call, xs)
  }

  /** `xs` is all the call meets before it ends as `end`. */
  ghost predicate EndsAs(call: Call, xs: seq<Exchange>, end: End)
    requires call.Valid()
  {
    if end.AttemptLimit? then HitsLimit(call, xs)
    else
      && xs != [] && Underway(call, xs[..|xs| - 1]) && After(call, xs).None?
      && Attempt(call, After(call, xs[..|xs| - 1]).value, xs[|xs| - 1])
         == (if end.Returned? then Stop else Fail(end.error))
  }

  /** The first `n` things a call meets. */
  function Met(exchanges: nat -> Exchange, n: nat): (xs: seq<Exchange>)
    ensures |xs| == n && forall i :: 0 <= i < n ==> xs[i] == exchanges(i)
  {
    seq(n, i requires 0 <= i < n => exchanges(i))
  }

  /** `_AttemptRun.execute`: prepare, send, decide, commit, until a decision ends the call. */
  method Execute(call: Call, exchanges: nat -> Exchange) returns (end: End, waits: seq<int>, attempts: nat)
    requires call.Valid()
    ensures EndsAs(call, Met(exchanges, attempts), end)
    ensures waits == Waits(call, Met(exchanges, attempts))
    ensures attempts <= call.options.maxAttempts + Total(call.guards, call.maxReplays)
  {
    var s := Initial(call);
    waits, attempts := [], 0;
    TotalNonNegative(call.guards, call.maxReplays);
    while s.number <= s.budgets.hardLimit
      invariant After(call, Met(exchanges, attempts)) == Some(s) && s.number == attempts + 1 <= s.budgets.hardLimit + 1
      invariant s.budgets.hardLimit == call.options.maxAttempts + Total(call.guards, call.maxReplays)
      invariant waits == Waits(call, Met(exchanges, attempts))
      decreases s.budgets.hardLimit - s.number
    {
      var x := exchanges(attempts);
      var decision := Round(call, s, x, Met(exchanges, attempts));
      assert Met(exchanges, attempts) + [x] == Met(exchanges, attempts + 1);
      attempts := attempts + 1;
      if decision.Stop? {
        return Returned, waits, attempts;
      }
      if decision.Fail? {
        return Raised(decision.error), waits, attempts;
      }
      if decision.waitAttempt.Some? {
        waits := waits + [decision.waitAttempt.value];
      }
      s := decision.state;
    }
    return AttemptLimit, waits, attempts;
  }

  /** One pass of the loop body. */
  method Round(call: Call, s: State, x: Exchange, ghost xs: seq<Exchange>) returns (decision: Decision)
    requires call.Valid() && After(call, xs) == Some(s) && s.number <= s.budgets.hardLimit
    ensures decision.Continue? ==> After(call, xs + [x]) == Some(decision.state)
    ensures decision.Continue? ==> decision.state.number == s.number + 1
                                   && decision.state.budgets.hardLimit == s.budgets.hardLimit
    ensures decision.Stop? ==> EndsAs(call, xs + [x], Returned)
    ensures decision.Fail? ==> EndsAs(call, xs + [x], Raised(decision.error))
    ensures Waits(call, xs + [x]) == Waits(call, xs) +
              (if decision.Continue? && decision.waitAttempt.Some? then [decision.waitAttempt.value] else [])
  {
    decision := Attempt(call, s, x);
    OneMoreExchange(call, xs, x);
  }

  lemma OneMoreExchange(call: Call, xs: seq<Exchange>, x: Exchange)
    requires call.Valid() && After(call, xs).Some?
    requires After(call, xs).value.number <= After(call, xs).value.budgets.hardLimit
    ensures var s := After(call, xs).value; var d := Attempt(call, s, x);
            && (d.Stop? ==> EndsAs(call, xs + [x], Returned)) && (d.Fail? ==> EndsAs(call, xs + [x], Raised(d.error)))
            && After(call, xs + [x]) == (if d.Continue? then Some(d.state) else None)
            && (d.Continue? ==> d.state.number == s.number + 1 && d.state.budgets.hardLimit == s.budgets.hardLimit)
            && Waits(call, xs + [x]) == Waits(call, xs) +
                 (if d.Continue? && d.waitAttempt.Some? then [d.waitAttempt.value] else [])
  {
    assert (xs + [x])[..|xs + [x]| - 1] == xs;
    if Attempt(call, After(call, xs).value, x).Continue? {
      StepAdvances(call, After(call, xs).value, x);
    }
  }
}
