/**
 Which protection states callers get: when a cached one is used again, which one a lookup finds, that a rejected one
 is not handed out again, and that what cannot be shared is not.
 */
module ProtectionStates {
  import opened Ordering
  import opened Protection

  /** A state fits a caller when it was acquired under its fingerprint, or under none that is known. */
  predicate Fits(state: Managed, fingerprint: string) {
    state.identity == None || state.identity == Some(fingerprint)
  }

  // ----- One step

  /** A caller that looks takes the cached state if it fits and is still shareable; otherwise it will solve, and the
      state is gone. */
  lemma LookInFull(s: State, t: Thread, shareable: bool)
    requires At(s, t) == Some(Dropped)
    ensures var key := s.callers[t].request.key;
            var s' := Step(s, Look(t, shareable));
            && s'.handed == s.handed && s'.solves == s.solves
            && if key in s.cache && Fits(s.cache[key], s.callers[t].request.fingerprint) && shareable then
                 At(s', t) == Some(Done(s.cache[key])) && s'.cache == s.cache
               else
                 At(s', t) == Some(Solving) && s'.cache == s.cache - {key}
  {
  }

  /** A solve makes a new state under the caller's fingerprint. The caller has it when it applies, and others can find
      it when it is shareable too. */
  lemma SolveInFull(s: State, t: Thread, solution: int, applies: bool, shareable: bool)
    requires At(s, t) == Some(Solving)
    ensures var r := s.callers[t].request;
            var s' := Step(s, Solve(t, solution, applies, shareable));
            var state := Managed(s.serial, solution, Some(r.fingerprint));
            && s'.serial == s.serial + 1 && s'.solves[r.key] == s.solves[r.key] + 1
            && At(s', t) == Some(if applies then Done(state) else Failed)
            && s'.cache == (if applies && shareable then s.cache[r.key := state] else s.cache)
  {
  }

  /** What a lookup may hand out. */
  predicate Findable(s: State, key: Key, fingerprint: string, family: set<Key>, live: Managed -> bool) {
    key in family && key in s.cache && Fits(s.cache[key], fingerprint) && live(s.cache[key])
  }

  /** A lookup hands out the newest of the states of a family that fit and are live, or nothing when there is none, and
      forgets the others of that family that do not. */
  lemma FindInFull(s: State, fingerprint: string, family: set<Key>, live: Managed -> bool, chosen: Option<Key>)
    ensures var s' := Step(s, Find(fingerprint, family, live, chosen));
            var newest := if chosen.None? then forall k :: !Findable(s, k, fingerprint, family, live)
                          else && Findable(s, chosen.value, fingerprint, family, live)
                               && forall k :: Findable(s, k, fingerprint, family, live) ==>
                                    s.cache[k].serial <= s.cache[chosen.value].serial;
            if !newest then s' == s
            else
              && s'.handed == (if chosen.None? then s.handed
                               else s.handed + [Found(chosen.value, fingerprint, s.cache[chosen.value])])
              && (forall k :: k in s'.cache <==>
                    k in s.cache && (k in family ==> Findable(s, k, fingerprint, family, live)))
              && forall k :: k in s'.cache ==> s'.cache[k] == s.cache[k]
  {
    var candidates := Candidates(s.cache, family, fingerprint, live);
    assert forall k :: k in candidates <==> Findable(s, k, fingerprint, family, live);
  }

  /** The other steps of a caller: in once the lock is free, without the state it rejects, out with what it has, gone
      with it; or out with nothing, when it gives up waiting or its solver fails. */
  lemma CallersProceed(s: State, t: Thread)
    requires t in s.callers
    ensures var c := s.callers[t]; var r := c.request;
            match c.phase
            case Waiting =>
              && At(Step(s, Acquire(t)), t) == Some(if c.entry in s.locks.locked then Waiting else Holding)
              && At(Step(s, Cancel(t)), t) == Some(Leaving(None))
            case Holding =>
              var s' := Step(s, DropRejected(t));
              && At(s', t) == Some(Dropped)
              && s'.cache == (if r.rejected.Some? && r.rejected.value.0 in s.cache
                                 && s.cache[r.rejected.value.0] == r.rejected.value.1
                              then s.cache - {r.rejected.value.0} else s.cache)
            case Dropped => true
            case Solving => At(Step(s, SolveFails(t)), t) == Some(Failed)
            case Done(state) => At(Step(s, Release(t)), t) == Some(Leaving(Some(state)))
            case Failed => At(Step(s, Release(t)), t) == Some(Leaving(None))
            case Leaving(result) =>
              var s' := Step(s, Leave(t));
              && t !in s'.callers
              && s'.handed == if result.Some? then s.handed + [Given(r, result.value)] else s.handed
  {
  }

  /** The whole of a call that nobody gets in the way of. */
  function AloneCall(t: Thread, r: Request, shareable: bool, solution: int, freshlyShared: bool): seq<Action> {
    [Enter(t, r), Acquire(t), DropRejected(t), Look(t, shareable), Solve(t, solution, true, freshlyShared),
     Release(t), Leave(t)]
  }

  /** What it finds cached once the state it rejects is gone. */
  function Remaining(s: State, r: Request): map<Key, Managed> {
    if r.rejected.Some? && r.rejected.value.0 in s.cache && s.cache[r.rejected.value.0] == r.rejected.value.1
    then s.cache - {r.rejected.value.0} else s.cache
  }

  /** A call that finds the lock free is given the cached state, if that fits, is shareable and is not the one it
      rejects; otherwise the state its solver makes. */
  lemma AloneCallIsServed(s: State, t: Thread, r: Request, shareable: bool, solution: int, freshlyShared: bool)
    requires t !in s.callers && s.locks.Entry(r.key) !in s.locks.locked
    ensures var s' := Run(s, AloneCall(t, r, shareable, solution, freshlyShared));
            var cache := Remaining(s, r);
            var state := if r.key in cache && Fits(cache[r.key], r.fingerprint) && shareable then cache[r.key]
                         else Managed(s.serial, solution, Some(r.fingerprint));
            s'.handed == s.handed + [Given(r, state)] && t !in s'.callers
  {
    GoesIn(s, t, r, shareable);
    GetsOut(LookedUp(s, t, r, shareable), t, solution, freshlyShared);
    RunsThrough(s, t, r, shareable, solution, freshlyShared);
  }

  function Ready(s: State, t: Thread, r: Request): State {
    Step(Step(Step(s, Enter(t, r)), Acquire(t)), DropRejected(t))
  }

  function LookedUp(s: State, t: Thread, r: Request, shareable: bool): State {
    Step(Ready(s, t, r), Look(t, shareable))
  }

  lemma GetsReady(s: State, t: Thread, r: Request)
    requires t !in s.callers && s.locks.Entry(r.key) !in s.locks.locked
    ensures var s3 := Ready(s, t, r);
            && At(s3, t) == Some(Dropped) && s3.callers[t].request == r
            && s3.serial == s.serial && s3.handed == s.handed && s3.cache == Remaining(s, r)
  {
    var s2 := Step(Step(s, Enter(t, r)), Acquire(t));
    assert At(s2, t) == Some(Holding) && s2.callers[t].request == r && s2.cache == s.cache;
  }

  lemma GoesIn(s: State, t: Thread, r: Request, shareable: bool)
    requires t !in s.callers && s.locks.Entry(r.key) !in s.locks.locked
    ensures var s4, cache := LookedUp(s, t, r, shareable), Remaining(s, r);
            && t in s4.callers && s4.callers[t].request == r && s4.serial == s.serial && s4.handed == s.handed
            && s4.callers[t].phase == if r.key in cache && Fits(cache[r.key], r.fingerprint) && shareable
                                      then Done(cache[r.key]) else Solving
  {
    GetsReady(s, t, r);
    LookInFull(Ready(s, t, r), t, shareable);
  }

  lemma GetsOut(s: State, t: Thread, solution: int, freshlyShared: bool)
    requires t in s.callers && (s.callers[t].phase.Done? || s.callers[t].phase.Solving?)
    ensures var r := s.callers[t].request;
            var s' := Step(Step(Step(s, Solve(t, solution, true, freshlyShared)), Release(t)), Leave(t));
            var state := if s.callers[t].phase.Done? then s.callers[t].phase.state
                         else Managed(s.serial, solution, Some(r.fingerprint));
            s'.handed == s.handed + [Given(r, state)] && t !in s'.callers
  {
    var s1 := Step(s, Solve(t, solution, true, freshlyShared));
    assert t in s1.callers && s1.callers[t].phase.Done? && s1.callers[t].request == s.callers[t].request;
    var s2 := Step(s1, Release(t));
    assert At(s2, t) == Some(Leaving(Some(s1.callers[t].phase.state)));
  }

  lemma RunsThrough(s: State, t: Thread, r: Request, shareable: bool, solution: int, freshlyShared: bool)
    ensures Run(s, AloneCall(t, r, shareable, solution, freshlyShared))
         == Step(Step(Step(LookedUp(s, t, r, shareable), Solve(t, solution, true, freshlyShared)), Release(t)),
                 Leave(t))
  {
    var all := AloneCall(t, r, shareable, solution, freshlyShared);
    RunTwo(s, all[0], all[1], all[2..]);
    var s2 := Step(Step(s, all[0]), all[1]);
    RunTwo(s2, all[2], all[3], all[4..]);
    var s4 := Step(Step(s2, all[2]), all[3]);
    RunTwo(s4, all[4], all[5], all[6..]);
    var s6 := Step(Step(s4, all[4]), all[5]);
    assert all == [all[0], all[1]] + all[2..] && all[2..] == [all[2], all[3]] + all[4..];
    assert all[4..] == [all[4], all[5]] + all[6..] && all[6..] == [all[6]];
    assert Run(s6, [all[6]]) == Run(Step(s6, all[6]), []);
  }

  lemma RunTwo(s: State, a: Action, b: Action, rest: seq<Action>)
    ensures Run(s, [a, b] + rest) == Run(Step(Step(s, a), b), rest)
  {
    assert ([a, b] + rest)[1..] == [b] + rest && ([b] + rest)[1..] == rest;
    assert Run(s, [a, b] + rest) == Run(Step(s, a), [b] + rest);
  }

  // ----- A rejected state is not handed out again

  /** A caller can only reject a state that exists by then. */
  predicate RejectsThePast(s: State, a: Action) {
    a.Enter? && a.request.rejected.Some? ==> a.request.rejected.value.1.serial < s.serial
  }

  predicate AllRejectThePast(s: State, actions: seq<Action>)
    decreases |actions|
  {
    actions == [] || (RejectsThePast(s, actions[0]) && AllRejectThePast(Step(s, actions[0]), actions[1..]))
  }

  predicate Rejects(r: Request, state: Managed) {
    r.rejected == Some((r.key, state))
  }

  /** Nobody has the state it rejects, and whoever has dropped it does not find it in its place. */
  predicate RidOfRejected(c: Caller, cache: map<Key, Managed>, serial: nat) {
    && (c.request.rejected.Some? ==> c.request.rejected.value.1.serial < serial)
    && (c.phase.Done? ==> !Rejects(c.request, c.phase.state))
    && (c.phase.Leaving? && c.phase.result.Some? ==> !Rejects(c.request, c.phase.result.value))
    && (c.phase.Dropped? && c.request.key in cache ==> !Rejects(c.request, cache[c.request.key]))
  }

  ghost predicate NoneRejected(s: State) {
    && (forall t :: t in s.callers ==> RidOfRejected(s.callers[t], s.cache, s.serial))
    && (forall i :: 0 <= i < |s.handed| && s.handed[i].Given? ==> !Rejects(s.handed[i].request, s.handed[i].state))
  }

  lemma StepKeepsNoneRejected(s: State, a: Action)
    requires NoneRejected(s) && RejectsThePast(s, a)
    ensures NoneRejected(Step(s, a))
  {
  }

  /** In every run, whatever interleaves, no caller is given the state it rejects. */
  lemma {:induction false} RejectedIsNotHanded(s: State, actions: seq<Action>)
    requires NoneRejected(s) && AllRejectThePast(s, actions)
    ensures NoneRejected(Run(s, actions))
    decreases |actions|
  {
    if actions != [] {
      StepKeepsNoneRejected(s, actions[0]);
      RejectedIsNotHanded(Step(s, actions[0]), actions[1..]);
    }
  }

  // ----- What is not shareable is not shared

  /** No look of a caller of `key` finds a shareable state. */
  predicate NeverShareable(s: State, key: Key, actions: seq<Action>)
    decreases |actions|
  {
    actions == [] ||
      (&& !(actions[0].Look? && actions[0].shareable && actions[0].t in s.callers
            && s.callers[actions[0].t].request.key == key)
       && NeverShareable(Step(s, actions[0]), key, actions[1..]))
  }

  predicate HasResult(c: Caller) {
    c.phase.Done? || (c.phase.Leaving? && c.phase.result.Some?)
  }

  ghost function Holders(callers: map<Thread, Caller>, key: Key): set<Thread> {
    set t | t in callers && callers[t].request.key == key && HasResult(callers[t])
  }

  /** How many states were given to callers of `key`. */
  function GivenFor(handed: seq<Handed>, key: Key): nat {
    if handed == [] then 0
    else
      var last := handed[|handed| - 1];
      GivenFor(handed[..|handed| - 1], key) + (if last.Given? && last.request.key == key then 1 else 0)
  }

  lemma GivenForSnoc(handed: seq<Handed>, last: Handed, key: Key)
    ensures GivenFor(handed + [last], key)
         == GivenFor(handed, key) + (if last.Given? && last.request.key == key then 1 else 0)
  {
    assert (handed + [last])[..|handed|] == handed;
  }

  /** Every state that callers of `key` have or were given is one that was solved for them. */
  ghost predicate Paid(s: State, key: Key) {
    GivenFor(s.handed, key) + |Holders(s.callers, key)| <= s.solves[key]
  }

  /** The holders after one caller changed. */
  lemma HoldersAfter(before: map<Thread, Caller>, after: map<Thread, Caller>, t: Thread, key: Key)
    requires before - {t} == after - {t}
    ensures var had := t in Holders(before, key); var has := t in Holders(after, key);
            |Holders(after, key)| == |Holders(before, key)| + (if has then 1 else 0) - (if had then 1 else 0)
  {
    var others := Holders(before - {t}, key);
    assert Holders(before, key) == if t in Holders(before, key) then others + {t} else others;
    assert Holders(after, key) == if t in Holders(after, key) then others + {t} else others by {
      assert others == Holders(after - {t}, key);
    }
  }

  /** A caller gets a result only by solving. */
  lemma ResultsAreSolved(s: State, key: Key, a: Action)
    requires NeverShareable(s, key, [a]) && !a.Find? && !a.Invalidate? && !a.Close?
    ensures var s' := Step(s, a);
            var had := a.t in Holders(s.callers, key);
            var has := a.t in Holders(s'.callers, key);
            s'.solves[key] >= s.solves[key] + (if has && !had then 1 else 0)
  {
  }

  lemma OthersStay(s: State, a: Action)
    requires !a.Find? && !a.Invalidate? && !a.Close?
    ensures s.callers - {a.t} == Step(s, a).callers - {a.t}
  {
  }

  /** It is given it when it leaves, and is gone then. */
  lemma GivenOnLeaving(s: State, a: Action)
    requires !a.Find? && !a.Invalidate? && !a.Close? && Step(s, a).handed != s.handed
    ensures a.t in s.callers && HasResult(s.callers[a.t]) && s.callers[a.t].phase.Leaving?
    ensures var c := s.callers[a.t];
            Step(s, a).handed == s.handed + [Given(c.request, c.phase.result.value)] && a.t !in Step(s, a).callers
  {
  }

  lemma StepKeepsPaid(s: State, key: Key, a: Action)
    requires Paid(s, key) && NeverShareable(s, key, [a])
    ensures Paid(Step(s, a), key)
  {
    var s' := Step(s, a);
    if a.Find? {
      if s'.handed != s.handed {
        GivenForSnoc(s.handed, Found(a.chosen.value, a.fingerprint, s.cache[a.chosen.value]), key);
      }
    } else if !a.Invalidate? && !a.Close? {
      OthersStay(s, a);
      ResultsAreSolved(s, key, a);
      HoldersAfter(s.callers, s'.callers, a.t, key);
      if s'.handed != s.handed {
        GivenOnLeaving(s, a);
        var c := s.callers[a.t];
        GivenForSnoc(s.handed, Given(c.request, c.phase.result.value), key);
      }
    }
  }

  /** When no look at a key finds a shareable state, its callers are given at most as many states as were solved for
      it: nothing is used twice. */
  lemma {:induction false} NothingIsShared(s: State, key: Key, actions: seq<Action>)
    requires Paid(s, key) && NeverShareable(s, key, actions)
    ensures Paid(Run(s, actions), key)
    decreases |actions|
  {
    if actions != [] {
      assert NeverShareable(s, key, [actions[0]]);
      StepKeepsPaid(s, key, actions[0]);
      NothingIsShared(Step(s, actions[0]), key, actions[1..]);
    }
  }
}
