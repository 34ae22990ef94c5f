/**
 What one exchange does to a call, told over runs: with which result or error the call ends, or with which state it
 goes on. The conditions are those a caller can see: proposals, statuses, signals and the budgets left.
 */
module AttemptOutcomes {
  import opened Ordering
  import opened Attempts

  // ----- What a response may ask for

  predicate RetryAsked(call: Call, s: State, x: Exchange)
    requires x.Response?
  {
    x.status in call.options.retry.retryStatuses && s.budgets.transport >= 1 && s.number + 1 <= s.budgets.hardLimit
  }

  /** The session is rejected, by status or by a declared error, and may still be refreshed. */
  predicate RefreshAsked(s: State, x: Exchange)
    requires x.Response?
  {
    && (x.status == 401 || x.outcome == ErrorCase(true))
    && s.budgets.auth >= 1 && s.number + 1 <= s.budgets.hardLimit && x.authRefreshable
  }

  predicate RedirectAsked(x: Exchange)
    requires x.Response?
  {
    (x.status == 301 || x.status == 302 || x.status == 303 || x.status == 307 || x.status == 308)
    && x.location.Some? && !x.redirectDeclared
  }

  /** A page nothing could read, which sends the client somewhere else. */
  predicate PageRedirects(call: Call, s: State, x: Exchange)
    requires x.Response?
  {
    call.options.clientRedirects && !call.rawResponse && x.status == 200
    && (x.outcome == Unexpected || x.outcome == Malformed) && x.metaRefresh.Some? && x.metaRefresh.value != s.url
  }

  predicate Proposed(x: Exchange)
    requires x.Response?
  {
    x.proposal.RetryAttempt? || x.proposal.RedirectTo?
  }

  /** Nothing asks for another attempt. */
  predicate Quiet(call: Call, s: State, x: Exchange)
    requires x.Response?
  {
    && !Proposed(x) && !RetryAsked(call, s, x) && x.signal.None? && !RefreshAsked(s, x)
    && !RedirectAsked(x) && !PageRedirects(call, s, x)
  }

  /** What one more exchange leads to is what its attempt decides. */
  lemma ByDecision(call: Call, xs: seq<Exchange>, x: Exchange)
    requires call.Valid() && Underway(call, xs)
    ensures var d := Attempt(call, After(call, xs).value, x);
            && After(call, xs + [x]) == (if d.Continue? then Some(d.state) else None)
            && (EndsAs(call, xs + [x], Returned) <==> d == Stop)
            && (forall error :: EndsAs(call, xs + [x], Raised(error)) <==> d == Fail(error))
  {
    OneMoreExchange(call, xs, x);
    assert (xs + [x])[..|xs|] == xs;
  }

  // ----- How a call ends

  lemma QuietDecides(call: Call, s: State, x: Exchange)
    ensures Attempt(call, s, x) == Stop
       <==> x.Response? && Quiet(call, s, x) && (call.rawResponse || x.outcome == Success)
    ensures x.Response? && Quiet(call, s, x) && !call.rawResponse && x.outcome != Success ==>
              Attempt(call, s, x) == Fail(Propagated)
  {
  }

  /** A call returns exactly with a response that asks for nothing and is a result, or is wanted raw; any other
      response that asks for nothing is raised. */
  lemma ReturnsIff(call: Call, xs: seq<Exchange>, x: Exchange)
    requires call.Valid() && Underway(call, xs)
    ensures var s := After(call, xs).value;
            && (EndsAs(call, xs + [x], Returned)
                <==> x.Response? && Quiet(call, s, x) && (call.rawResponse || x.outcome == Success))
            && (x.Response? && Quiet(call, s, x) && !call.rawResponse && x.outcome != Success ==>
                  EndsAs(call, xs + [x], Raised(Propagated)))
  {
    ByDecision(call, xs, x);
    QuietDecides(call, After(call, xs).value, x);
  }

  /** However a run came about: what it returns is a result, or was wanted raw. */
  lemma ReturnedIsResult(call: Call, xs: seq<Exchange>)
    requires call.Valid() && EndsAs(call, xs, Returned)
    ensures var last := xs[|xs| - 1];
            last.Response? && (call.rawResponse || last.outcome == Success)
  {
    var front, last := xs[..|xs| - 1], xs[|xs| - 1];
    assert xs == front + [last];
    ReturnsIff(call, front, last);
  }

  // ----- How a call goes on

  /** The step leads to this state, unless taking it raises. */
  function Going(x: Exchange, next: State): Decision {
    if (x.Response? || x.TransportError?) && x.commitRaises then Fail(Propagated) else Continue(next, None)
  }

  /** An attempt decides this much: how the call ends, or with which state it goes on. */
  predicate Decides(d: Decision, expected: Decision) {
    if expected.Continue? then d.Continue? && d.state == expected.state else d == expected
  }

  /** A proposal of a middleware comes before anything else: a replay costs nothing but needs an idempotent call, a
      redirect costs one of the redirects. */
  function ProposalDecision(call: Call, s: State, x: Exchange): Decision
    requires x.Response? && Proposed(x)
  {
    var b := s.budgets;
    match x.proposal
    case RetryAttempt(kind) =>
      if call.idempotent then Going(x, s.(number := s.number + 1, kind := kind)) else Fail(UnsafeReplay)
    case RedirectTo(url) =>
      if b.redirect <= 0 then Fail(RedirectLimit)
      else
        Going(x, s.(number := s.number + 1, kind := "redirect", url := call.join(s.url, url), redirected := true,
                    budgets := b.(redirect := b.redirect - 1)))
  }

  /** Then a status to be retried, which costs a retry; then a signal, which costs a replay of its guard; then a
      rejected session, which costs a refresh. Retries and refreshes need an idempotent call. */
  function RepeatDecision(call: Call, s: State, x: Exchange): Decision
    requires x.Response? && (RetryAsked(call, s, x) || x.signal.Some? || RefreshAsked(s, x))
  {
    var b := s.budgets;
    if RetryAsked(call, s, x) then
      if call.idempotent then
        Going(x, s.(number := s.number + 1, kind := "response-retry", retries := s.retries + 1,
                    budgets := b.(transport := b.transport - 1)))
      else Fail(UnsafeReplay)
    else if x.signal.Some? then
      var guard := x.signal.value;
      if x.replaySafe && guard in b.replays && b.replays[guard] >= 1 then
        Going(x, s.(number := s.number + 1, kind := "reaction",
                    budgets := b.(replays := b.replays[guard := b.replays[guard] - 1])))
      else Fail(ReplayDenied)
    else if call.idempotent then
      Going(x, s.(number := s.number + 1, kind := "auth-refresh", budgets := b.(auth := b.auth - 1)))
    else Fail(UnsafeReplay)
  }

  /** Then a redirect, by status or by a page; each costs one of the redirects. It leads to the location, joined with
      the address that answered, or to where the page says. */
  predicate RedirectDecision(call: Call, s: State, x: Exchange, d: Decision)
    requires x.Response? && (RedirectAsked(x) || PageRedirects(call, s, x))
  {
    if s.budgets.redirect <= 0 then d == Fail(RedirectLimit)
    else if x.commitRaises then d == Fail(Propagated)
    else
      && d.Continue? && d.state.number == s.number + 1 && d.state.kind == "redirect"
      && d.state.redirected && d.state.retries == s.retries
      && d.state.budgets == s.budgets.(redirect := s.budgets.redirect - 1)
      && d.state.url == (if RedirectAsked(x) then
                           call.join(if x.responseUrl != "" then x.responseUrl else s.url, x.location.value)
                         else x.metaRefresh.value)
  }

  /** Without a response: an idempotent call is retried while a retry is left, and for nothing when a middleware
      proposes it; otherwise the error is raised, or the refusal to repeat the call. */
  function NoResponseDecision(call: Call, s: State, x: Exchange): Decision
    requires !x.Response?
  {
    var b := s.budgets;
    if x.Raises? || (b.transport <= 0 && !x.proposed) then Fail(Propagated)
    else if !call.idempotent then Fail(if call.options.retry.maxAttempts != 1 then UnsafeReplay else Propagated)
    else if b.transport <= 0 then Going(x, s.(number := s.number + 1, kind := "transport-retry"))
    else
      Going(x, s.(number := s.number + 1, kind := "transport-retry", retries := s.retries + 1,
                  budgets := b.(transport := b.transport - 1)))
  }

  /** What an exchange leads to when it does not end the call as `ReturnsIff` says, in the order of precedence. */
  predicate Leads(call: Call, s: State, x: Exchange, d: Decision) {
    if !x.Response? then Decides(d, NoResponseDecision(call, s, x))
    else if Proposed(x) then Decides(d, ProposalDecision(call, s, x))
    else if RetryAsked(call, s, x) || x.signal.Some? || RefreshAsked(s, x) then Decides(d, RepeatDecision(call, s, x))
    else if RedirectAsked(x) || PageRedirects(call, s, x) then RedirectDecision(call, s, x, d)
    else d == if call.rawResponse || x.outcome == Success then Stop else Fail(Propagated)
  }

  lemma AttemptLeads(call: Call, s: State, x: Exchange)
    ensures Leads(call, s, x, Attempt(call, s, x))
  {
    if x.Response? && !Proposed(x) {
      RepeatsLead(call, s, x);
    }
  }

  lemma RepeatsLead(call: Call, s: State, x: Exchange)
    requires x.Response? && !Proposed(x)
    ensures Leads(call, s, x, Attempt(call, s, x))
  {
  }

  /** How every exchange of a run leads on: the next state, or the end of the call and how it ends. */
  lemma EveryExchangeLeads(call: Call, xs: seq<Exchange>, x: Exchange)
    requires call.Valid() && Underway(call, xs)
    ensures var s := After(call, xs).value;
            exists d ::
              && Leads(call, s, x, d)
              && (d.Continue? ==> After(call, xs + [x]) == Some(d.state))
              && (d.Stop? ==> EndsAs(call, xs + [x], Returned))
              && (d.Fail? ==> EndsAs(call, xs + [x], Raised(d.error)))
  {
    ByDecision(call, xs, x);
    AttemptLeads(call, After(call, xs).value, x);
  }

  /** A call starts at its own address with its first attempt, nothing spent. */
  lemma CallStarts(call: Call)
    requires call.Valid()
    ensures var s := After(call, []).value; var o := call.options;
            && s.number == 1 && s.kind == "initial" && s.url == call.url && s.verb.None? && !s.omitBody
            && !s.redirected && s.retries == 0
            && s.budgets.transport == o.transportRetries && s.budgets.auth == o.authRetries
            && s.budgets.redirect == o.maxRedirects && s.budgets.replays == call.maxReplays
            && s.budgets.hardLimit == o.maxAttempts + Total(call.guards, call.maxReplays)
  {
  }

  /** The least that options may ask for: one attempt, no wait, no jitter, a cap at the base, no budget. */
  lemma LeastOptions(base: real)
    requires base >= 0.0
    ensures var p := RetryPolicy(1, {}, base, base, 0.0);
            && p.Valid() && RetryPolicy(1, {}, base, 0.0, 0.0).Valid()
            && CallOptions(1, 0, 0, 0, p, false).Valid() && Resilience(p, 0, 0, false).Valid()
    ensures base > 0.0 ==> !RetryPolicy(1, {}, 2.0 * base, base, 0.0).Valid()
    ensures !RetryPolicy(0, {}, 0.0, 0.0, 0.0).Valid() && !RetryPolicy(1, {}, -1.0, 0.0, 0.0).Valid()
    ensures !RetryPolicy(1, {}, 0.0, -1.0, 0.0).Valid() && !RetryPolicy(1, {}, 0.0, 0.0, -1.0).Valid()
  {
  }
}
