/**
 The session lifecycle: resolve, adopt and refresh under one lock over a revisioned store.

 Each call is one section under the lock. What it meets there - how sessions are judged by the clock and the
 site's cookies, what acquiring or refreshing answers, and the `invalidate` calls that others make while it
 waits - is an `Answers`.
 */
module Sessions {
  import opened Ordering

  /** `parse` is `None` when the parser raises. */
  datatype Config = Config(parse: int -> Option<int>, initial: Option<int>, acquires: bool, refreshes: bool,
                           cookies: bool)

  datatype Stored = Stored(value: int, revision: nat)

  datatype Error = CredentialsRequired | FailedValidation | MovedBackwards | OlderThanSelected | NotConfigured
                   | Propagated

  datatype Result<+T> = Ok(value: T) | Err(error: Error)

  /** What the validator and the required cookies say of a session at the moment it is checked: an accepted
      session may be rejected later. The validator may raise. */
  datatype Verdict = Accepted | Rejected | Raised

  /** The verdicts on the stored session, on the initial one and on a new one; `acquired` and `refreshed` are
      `None` when the exchange raises. */
  datatype Answers = Answers(stored: Verdict, initial: Verdict, renewed: Verdict,
                             acquired: Option<int>, refreshed: Option<int>, meanwhile: seq<Option<nat>>)

  /** The record under the lifecycle's key, the lifecycle's own fields, and the history of both. */
  datatype State = State(stored: Option<Stored>, revision: nat, seeded: bool,
                         saved: seq<nat>, refreshed: nat, poured: nat)

  function Max(a: nat, b: nat): nat {
    if a < b then b else a
  }

  function Invalidated(stored: Option<Stored>, expected: Option<nat>): Option<Stored> {
    if stored.Some? && (expected.None? || expected.value == stored.value.revision) then None else stored
  }

  function InvalidateAll(stored: Option<Stored>, calls: seq<Option<nat>>): (r: Option<Stored>)
    ensures r == stored || r.None?
    decreases |calls|
  {
    if calls == [] then stored else InvalidateAll(Invalidated(stored, calls[0]), calls[1..])
  }

  /** Having loaded the store: never count from below its revision, pour its cookies in once. */
  function Loaded(c: Config, s: State): State {
    if s.stored.None? then s
    else
      var pour := c.cookies && !s.seeded;
      s.(revision := Max(s.revision, s.stored.value.revision), seeded := s.seeded || c.cookies,
         poured := s.poured + (if pour then 1 else 0))
  }

  /** `MemorySessionStore.save`, logged. */
  function Saved(s: State, value: int, revision: nat): (State, Result<Stored>) {
    if s.stored.Some? && revision < s.stored.value.revision then (s, Err(MovedBackwards))
    else (s.(stored := Some(Stored(value, revision)), saved := s.saved + [revision]), Ok(Stored(value, revision)))
  }

  function SaveNext(s: State, value: int): (State, Result<Stored>) {
    Saved(s.(revision := s.revision + 1), value, s.revision + 1)
  }

  function Meanwhile(s: State, a: Answers): State {
    s.(stored := InvalidateAll(s.stored, a.meanwhile))
  }

  function Refusal(v: Verdict): Result<Stored>
    requires !v.Accepted?
  {
    Err(if v.Raised? then Propagated else FailedValidation)
  }

  function RefreshLocked(c: Config, s: State, current: Stored, a: Answers): (State, Result<Stored>) {
    if !c.refreshes then (s, Err(NotConfigured))
    else
      var s' := Meanwhile(s, a).(refreshed := s.refreshed + 1);
      var parsed := if a.refreshed.None? then None else c.parse(a.refreshed.value);
      if parsed.None? then (s', Err(Propagated))
      else if !a.renewed.Accepted? then (s', Refusal(a.renewed))
      else Saved(s'.(revision := Max(s'.revision, current.revision + 1)), parsed.value, current.revision + 1)
  }

  function Acquire(c: Config, s: State, a: Answers): (State, Result<Stored>) {
    if !c.acquires then (s, Err(CredentialsRequired))
    else
      var s' := Meanwhile(s, a);
      var parsed := if a.acquired.None? then None else c.parse(a.acquired.value);
      if parsed.None? then (s', Err(Propagated))
      else if !a.renewed.Accepted? then (s', Refusal(a.renewed))
      else SaveNext(s', parsed.value)
  }

  function Resolve(c: Config, s: State, a: Answers): (State, Result<Stored>) {
    var s1 := Loaded(c, s);
    if s.stored.Some? && a.stored.Raised? then (s1, Err(Propagated))
    else if s.stored.Some? && a.stored.Accepted? then (s1, Ok(s.stored.value))
    else if s.stored.Some? && c.refreshes then RefreshLocked(c, s1, s.stored.value, a)
    else if c.initial.Some? then
      var parsed := c.parse(c.initial.value);
      if parsed.None? || a.initial.Raised? then (s1, Err(Propagated))
      else if a.initial.Accepted? then SaveNext(s1, parsed.value)
      else Acquire(c, s1, a)
    else Acquire(c, s1, a)
  }

  function Adopt(c: Config, s: State, value: int, a: Answers): (State, Result<Stored>) {
    var parsed := c.parse(value);
    if parsed.None? then (s, Err(Propagated))
    else if !a.renewed.Accepted? then (s, Refusal(a.renewed))
    else
      var s1 := if s.stored.Some? then s.(revision := Max(s.revision, s.stored.value.revision)) else s;
      SaveNext(s1, parsed.value)
  }

  function RefreshRevision(c: Config, s: State, expected: nat, a: Answers): (State, Result<Stored>) {
    if s.stored.None? then (s, Err(CredentialsRequired))
    else
      var s1, current := Loaded(c, s), s.stored.value;
      if current.revision > expected && a.stored.Raised? then (s1, Err(Propagated))
      else if current.revision > expected && a.stored.Accepted? then (s1, Ok(current))
      else if current.revision < expected then (s1, Err(OlderThanSelected))
      else RefreshLocked(c, s1, current, a)
  }

  // ----- The objects

  class MemorySessionStore {
    var values: map<string, Stored>

    constructor ()
      ensures values == map[]
    {
      values := map[];
    }

    function Get(key: string): Option<Stored>
      reads this
    {
      if key in values then Some(values[key]) else None
    }

    method Save(key: string, value: int, revision: nat) returns (ok: bool)
      modifies this
      ensures ok <==> !(key in old(values) && revision < old(values)[key].revision)
      ensures values == if ok then old(values)[key := Stored(value, revision)] else old(values)
    {
      if key in values && revision < values[key].revision {
        return false;
      }
      values := values[key := Stored(value, revision)];
      return true;
    }

    method Invalidate(key: string, expected: Option<nat>)
      modifies this
      ensures Get(key) == Invalidated(old(Get(key)), expected)
      ensures values - {key} == old(values) - {key}
    {
      if key !in values {
        return;
      }
      if expected.None? || values[key].revision == expected.value {
        values := values - {key};
      }
    }
  }

  class SessionLifecycle {
    const config: Config
    const key: string
    const store: MemorySessionStore
    var revision: nat
    var seeded: bool
    ghost var saved: seq<nat>
    ghost var refreshed: nat
    ghost var poured: nat

    ghost function Value(): State
      reads this, store
    {
      State(store.Get(key), revision, seeded, saved, refreshed, poured)
    }

    constructor (config: Config, key: string, store: MemorySessionStore)
      ensures this.config == config && this.key == key && this.store == store
      ensures Value() == State(store.Get(key), 0, false, [], 0, 0)
    {
      this.config, this.key, this.store := config, key, store;
      revision, seeded, saved, refreshed, poured := 0, false, [], 0, 0;
    }

    method Seed()
      modifies this
      ensures Value() == old(Value()).(seeded := old(seeded) || config.cookies,
                                       poured := old(poured) + (if config.cookies && !old(seeded) then 1 else 0))
    {
      if !config.cookies || seeded {
        return;
      }
      seeded := true;
      poured := poured + 1;
    }

    method Load() returns (stored: Option<Stored>)
      modifies this
      ensures stored == old(Value()).stored && Value() == Loaded(config, old(Value()))
    {
      stored := store.Get(key);
      if stored.Some? {
        revision := Max(revision, stored.value.revision);
        Seed();
      }
    }

    /** The calls of others that the lock does not keep out. */
    method Wait(a: Answers)
      modifies store
      ensures Value() == Meanwhile(old(Value()), a)
      ensures store.values - {key} == old(store.values) - {key}
    {
      var i := 0;
      while i < |a.meanwhile|
        invariant i <= |a.meanwhile|
        invariant InvalidateAll(old(store.Get(key)), a.meanwhile) == InvalidateAll(store.Get(key), a.meanwhile[i..])
        invariant store.values - {key} == old(store.values) - {key}
      {
        store.Invalidate(key, a.meanwhile[i]);
        i := i + 1;
      }
    }

    method SaveRecord(value: int, at: nat) returns (r: Result<Stored>)
      modifies this, store
      ensures (Value(), r) == Saved(old(Value()), value, at)
      ensures store.values - {key} == old(store.values) - {key}
    {
      var ok := store.Save(key, value, at);
      if !ok {
        return Err(MovedBackwards);
      }
      saved := saved + [at];
      return Ok(Stored(value, at));
    }

    method SaveNextRecord(value: int) returns (r: Result<Stored>)
      modifies this, store
      ensures (Value(), r) == SaveNext(old(Value()), value)
      ensures store.values - {key} == old(store.values) - {key}
    {
      revision := revision + 1;
      r := SaveRecord(value, revision);
    }

    method DoRefreshLocked(current: Stored, a: Answers) returns (r: Result<Stored>)
      modifies this, store
      ensures (Value(), r) == RefreshLocked(config, old(Value()), current, a)
      ensures store.values - {key} == old(store.values) - {key}
    {
      if !config.refreshes {
        return Err(NotConfigured);
      }
      Wait(a);
      refreshed := refreshed + 1;
      if a.refreshed.None? {
        return Err(Propagated);
      }
      var parsed := config.parse(a.refreshed.value);
      if parsed.None? {
        return Err(Propagated);
      }
      if !a.renewed.Accepted? {
        return Refusal(a.renewed);
      }
      revision := Max(revision, current.revision + 1);
      r := SaveRecord(parsed.value, current.revision + 1);
    }

    method DoAcquire(a: Answers) returns (r: Result<Stored>)
      modifies this, store
      ensures (Value(), r) == Acquire(config, old(Value()), a)
      ensures store.values - {key} == old(store.values) - {key}
    {
      if !config.acquires {
        return Err(CredentialsRequired);
      }
      Wait(a);
      if a.acquired.None? {
        return Err(Propagated);
      }
      var parsed := config.parse(a.acquired.value);
      if parsed.None? {
        return Err(Propagated);
      }
      if !a.renewed.Accepted? {
        return Refusal(a.renewed);
      }
      r := SaveNextRecord(parsed.value);
    }

    method DoResolve(a: Answers) returns (r: Result<Stored>)
      modifies this, store
      ensures (Value(), r) == Resolve(config, old(Value()), a)
      ensures store.values - {key} == old(store.values) - {key}
    {
      var stored := Load();
      if stored.Some? {
        if a.stored.Raised? {
          return Err(Propagated);
        }
        if a.stored.Accepted? {
          return Ok(stored.value);
        }
        if config.refreshes {
          r := DoRefreshLocked(stored.value, a);
          return;
        }
      }
      if config.initial.Some? {
        var parsed := config.parse(config.initial.value);
        if parsed.None? || a.initial.Raised? {
          return Err(Propagated);
        }
        if a.initial.Accepted? {
          r := SaveNextRecord(parsed.value);
          return;
        }
      }
      r := DoAcquire(a);
    }

    method DoAdopt(value: int, a: Answers) returns (r: Result<Stored>)
      modifies this, store
      ensures (Value(), r) == Adopt(config, old(Value()), value, a)
      ensures store.values - {key} == old(store.values) - {key}
    {
      var parsed := config.parse(value);
      if parsed.None? {
        return Err(Propagated);
      }
      if !a.renewed.Accepted? {
        return Refusal(a.renewed);
      }
      var stored := store.Get(key);
      if stored.Some? {
        revision := Max(revision, stored.value.revision);
      }
      r := SaveNextRecord(parsed.value);
    }

    method DoRefreshRevision(expected: nat, a: Answers) returns (r: Result<Stored>)
      modifies this, store
      ensures (Value(), r) == RefreshRevision(config, old(Value()), expected, a)
      ensures store.values - {key} == old(store.values) - {key}
    {
      if store.Get(key).None? {
        return Err(CredentialsRequired);
      }
      var current := Load();
      if current.value.revision > expected {
        if a.stored.Raised? {
          return Err(Propagated);
        }
        if a.stored.Accepted? {
          return Ok(current.value);
        }
      }
      if current.value.revision < expected {
        return Err(OlderThanSelected);
      }
      r := DoRefreshLocked(current.value, a);
    }
  }

  // ----- Runs

  datatype Event =
    | Resolving(a: Answers)
    | Adopting(value: int, a: Answers)
    | Refreshing(selected: nat, a: Answers)
    | Invalidating(expected: Option<nat>)

  function Apply(c: Config, s: State, e: Event): (State, Result<Stored>) {
    match e
    case Resolving(a) => Resolve(c, s, a)
    case Adopting(value, a) => Adopt(c, s, value, a)
    case Refreshing(expected, a) => RefreshRevision(c, s, expected, a)
    case Invalidating(expected) => (s.(stored := Invalidated(s.stored, expected)), Err(CredentialsRequired))
  }

  function Run(c: Config, s: State, events: seq<Event>): State {
    if events == [] then s else Apply(c, Run(c, s, events[..|events| - 1]), events[|events| - 1]).0
  }

  ghost predicate Ascending(revisions: seq<nat>) {
    forall i, j :: 0 <= i < j < |revisions| ==> revisions[i] < revisions[j]
  }

  /** The lifecycle counts from its last save, and what it finds in the store is no older than that. */
  ghost predicate Orderly(s: State) {
    && Ascending(s.saved)
    && (s.saved != [] ==> s.saved[|s.saved| - 1] <= s.revision)
    && (s.saved != [] && s.stored.Some? ==> s.saved[|s.saved| - 1] <= s.stored.value.revision)
    && s.poured == (if s.seeded then 1 else 0)
  }

  /** What one call may do to an orderly state. */
  ghost predicate Proceeds(s: State, after: (State, Result<Stored>)) {
    && Orderly(after.0) && after.1 != Err(MovedBackwards)
    && (after.0.saved == s.saved || (after.1.Ok? && after.0.saved == s.saved + [after.1.value.revision]))
    && (after.1.Ok? ==> after.0.stored == Some(after.1.value))
  }

  lemma SavedProceeds(s: State, value: int, revision: nat)
    requires Orderly(s) && revision <= s.revision
    requires s.saved != [] ==> s.saved[|s.saved| - 1] < revision
    requires s.stored.Some? ==> s.stored.value.revision <= revision
    ensures Proceeds(s, Saved(s, value, revision))
  {
    assert Ascending(s.saved + [revision]);
  }

  lemma SaveNextProceeds(s: State, value: int)
    requires Orderly(s) && (s.stored.Some? ==> s.stored.value.revision <= s.revision)
    ensures Proceeds(s, SaveNext(s, value))
  {
    SavedProceeds(s.(revision := s.revision + 1), value, s.revision + 1);
  }

  /** A call that saves nothing and leaves the record or loses it. */
  lemma UnsavedProceeds(s: State, after: (State, Result<Stored>))
    requires Orderly(s) && after.1.Err? && after.1.error != MovedBackwards
    requires after.0.saved == s.saved && after.0.revision >= s.revision
    requires after.0.stored == s.stored || after.0.stored.None?
    requires after.0.seeded == s.seeded && after.0.poured == s.poured
    ensures Proceeds(s, after)
  {
  }

  lemma RefreshProceeds(c: Config, s: State, current: Stored, a: Answers)
    requires Orderly(s) && s.stored == Some(current)
    ensures Proceeds(s, RefreshLocked(c, s, current, a))
  {
    var s' := Meanwhile(s, a).(refreshed := s.refreshed + 1);
    if c.refreshes && a.refreshed.Some? && c.parse(a.refreshed.value).Some? && a.renewed.Accepted? {
      SavedProceeds(s'.(revision := Max(s'.revision, current.revision + 1)),
                    c.parse(a.refreshed.value).value, current.revision + 1);
    } else {
      UnsavedProceeds(s, RefreshLocked(c, s, current, a));
    }
  }

  lemma AcquireProceeds(c: Config, s: State, a: Answers)
    requires Orderly(s) && (s.stored.Some? ==> s.stored.value.revision <= s.revision)
    ensures Proceeds(s, Acquire(c, s, a))
  {
    if Acquire(c, s, a).1.Ok? || Acquire(c, s, a).1 == Err(MovedBackwards) {
      SaveNextProceeds(Meanwhile(s, a), c.parse(a.acquired.value).value);
    }
  }

  lemma LoadedOrderly(c: Config, s: State)
    requires Orderly(s)
    ensures Orderly(Loaded(c, s)) && Loaded(c, s).saved == s.saved && Loaded(c, s).stored == s.stored
    ensures s.stored.Some? ==> s.stored.value.revision <= Loaded(c, s).revision
  {
  }

  lemma ResolveProceeds(c: Config, s: State, a: Answers)
    requires Orderly(s)
    ensures Proceeds(s, Resolve(c, s, a))
  {
    var s1 := Loaded(c, s);
    LoadedOrderly(c, s);
    if s.stored.Some? {
      RefreshProceeds(c, s1, s.stored.value, a);
    }
    if c.initial.Some? && c.parse(c.initial.value).Some? {
      SaveNextProceeds(s1, c.parse(c.initial.value).value);
    }
    AcquireProceeds(c, s1, a);
  }

  lemma AdoptProceeds(c: Config, s: State, value: int, a: Answers)
    requires Orderly(s)
    ensures Proceeds(s, Adopt(c, s, value, a))
  {
    var s1 := if s.stored.Some? then s.(revision := Max(s.revision, s.stored.value.revision)) else s;
    if c.parse(value).Some? {
      SaveNextProceeds(s1, c.parse(value).value);
    }
  }

  lemma StepProceeds(c: Config, s: State, e: Event)
    requires Orderly(s)
    ensures Proceeds(s, Apply(c, s, e))
  {
    match e
    case Resolving(a) => ResolveProceeds(c, s, a);
    case Adopting(value, a) => AdoptProceeds(c, s, value, a);
    case Refreshing(selected, a) =>
      LoadedOrderly(c, s);
      if s.stored.Some? {
        RefreshProceeds(c, Loaded(c, s), s.stored.value, a);
      }
    case Invalidating(_) =>
  }

  /** In every run each saved revision is above all earlier ones, the store never reports a backward
      move, and the saved cookies are poured into the jar at most once. */
  lemma {:induction false} RevisionsOnlyGrow(c: Config, stored: Option<Stored>, events: seq<Event>)
    ensures var s := Run(c, State(stored, 0, false, [], 0, 0), events);
            Orderly(s) && forall e :: Apply(c, s, e).1 != Err(MovedBackwards)
  {
    var s0 := State(stored, 0, false, [], 0, 0);
    if events != [] {
      RevisionsOnlyGrow(c, stored, events[..|events| - 1]);
      StepProceeds(c, Run(c, s0, events[..|events| - 1]), events[|events| - 1]);
    }
    forall e ensures Apply(c, Run(c, s0, events), e).1 != Err(MovedBackwards) {
      StepProceeds(c, Run(c, s0, events), e);
    }
  }

  /** The refresher answers with a session that parses and is accepted. */
  predicate Refreshes(c: Config, a: Answers) {
    c.refreshes && a.refreshed.Some? && c.parse(a.refreshed.value).Some? && a.renewed.Accepted?
  }

  /** `refresh(current)` trusts its argument. The store reports a backward move exactly when the record left
      after the exchange is above the next revision; otherwise a refresh saves, and revisions keep growing
      exactly when `current` is no older than the last save. */
  lemma TrustedRefresh(c: Config, s: State, current: Stored, a: Answers)
    requires Orderly(s)
    ensures var after := RefreshLocked(c, s, current, a); var left := InvalidateAll(s.stored, a.meanwhile);
            && (after.1 == Err(MovedBackwards)
                <==> Refreshes(c, a) && left.Some? && current.revision + 1 < left.value.revision)
            && (after.1.Ok? <==> Refreshes(c, a) && (left.Some? ==> left.value.revision <= current.revision + 1))
            && (Orderly(after.0)
                <==> !(after.1.Ok? && s.saved != [] && current.revision < s.saved[|s.saved| - 1]))
  {
    var after := RefreshLocked(c, s, current, a);
    if after.1.Ok? {
      assert after.0.saved == s.saved + [current.revision + 1];
      if s.saved != [] {
        assert after.0.saved[|s.saved| - 1] == s.saved[|s.saved| - 1];
      }
    }
  }

  /** Both failures in a session's life: after three adoptions, refreshing with the record of revision 2 saves
      revision 3 again, and with that of revision 1 it moves the store backwards. */
  lemma StaleRefreshes(value: int)
    ensures var c := Config(x => Some(x), None, false, true, false);
            var a := Answers(Accepted, Accepted, Accepted, None, Some(value), []);
            var s := Run(c, State(None, 0, false, [], 0, 0),
                         [Adopting(value, a), Adopting(value, a), Adopting(value, a)]);
            && Orderly(s) && s.saved == [1, 2, 3] && s.stored == Some(Stored(value, 3))
            && RefreshLocked(c, s, Stored(value, 2), a).0.saved == [1, 2, 3, 3]
            && RefreshLocked(c, s, Stored(value, 1), a).1 == Err(MovedBackwards)
  {
    var c := Config(x => Some(x), None, false, true, false);
    var a := Answers(Accepted, Accepted, Accepted, None, Some(value), []);
    var s0, e := State(None, 0, false, [], 0, 0), Adopting(value, a);
    assert [e, e, e][..2] == [e, e] && [e, e][..1] == [e] && [e][..0] == [];
    var s1 := Apply(c, s0, e).0;
    var s2 := Apply(c, s1, e).0;
    assert Run(c, s0, [e]) == s1 && Run(c, s0, [e, e]) == s2;
    assert s1.saved == [1] && s2.saved == [1, 2];
    assert Run(c, s0, [e, e, e]) == Apply(c, s2, e).0;
  }

  /** A session of any kind may die between two calls: the same record is returned by one `resolve` and
      refreshed by the next. */
  lemma ExpiredIsRefreshed(c: Config, s: State, a: Answers, b: Answers)
    requires s.stored.Some? && a.stored.Accepted? && b.stored.Rejected? && Refreshes(c, b) && b.meanwhile == []
    ensures var first := Resolve(c, s, a); var second := Resolve(c, first.0, b);
            && first.1 == Ok(s.stored.value)
            && second.1 == Ok(Stored(c.parse(b.refreshed.value).value, s.stored.value.revision + 1))
            && second.0.refreshed == s.refreshed + 1
  {
    assert InvalidateAll(s.stored, b.meanwhile) == s.stored;
  }

  // ----- Callers that all refresh one revision

  /** The refresher answers, sessions are accepted and nobody invalidates. */
  predicate Works(c: Config, a: Answers) {
    Refreshes(c, a) && a.stored.Accepted? && a.meanwhile == []
  }

  /** A caller that rejects revision `r`, or a `resolve` that finds the stored session good. */
  predicate Joins(c: Config, r: nat, e: Event) {
    match e
    case Refreshing(selected, a) => selected == r && Works(c, a)
    case Resolving(a) => a.stored.Accepted?
    case _ => false
  }

  /** Where the first refresh stands among the calls. */
  function FirstRefresh(calls: seq<Event>): (i: nat)
    ensures i <= |calls| && (i < |calls| ==> calls[i].Refreshing?)
    ensures forall k :: 0 <= k < i ==> !calls[k].Refreshing?
  {
    if calls == [] || calls[0].Refreshing? then 0 else 1 + FirstRefresh(calls[1..])
  }

  lemma {:induction false} FirstRefreshOfPrefix(front: seq<Event>, last: Event)
    ensures var i := FirstRefresh(front);
            FirstRefresh(front + [last]) == if i < |front| || last.Refreshing? then i else i + 1
  {
    if front == [] {
      assert front + [last] == [last];
    } else {
      assert (front + [last])[1..] == front[1..] + [last];
      FirstRefreshOfPrefix(front[1..], last);
    }
  }

  /** However many callers reject revision `r`, in whatever order they and the `resolve` calls between them get the
      lock: the first refreshes, every later call is given revision `r + 1` with the session it got, and every
      `resolve` before it the old one. */
  lemma {:induction false} RefreshedOnce(c: Config, s: State, r: nat, calls: seq<Event>)
    requires s.stored.Some? && s.stored.value.revision == r
    requires forall i :: 0 <= i < |calls| ==> Joins(c, r, calls[i])
    ensures var last := Results(c, s, calls); var first := FirstRefresh(calls);
            && |last.1| == |calls|
            && (first == |calls| ==> last.0.refreshed == s.refreshed && last.0.stored == s.stored)
            && (forall i :: 0 <= i < first ==> last.1[i] == Ok(s.stored.value))
            && (first < |calls| ==>
                  Works(c, calls[first].a) &&
                  var record := Stored(c.parse(calls[first].a.refreshed.value).value, r + 1);
                  && last.0.refreshed == s.refreshed + 1 && last.0.stored == Some(record)
                  && forall i :: first <= i < |calls| ==> last.1[i] == Ok(record))
    decreases |calls|
  {
    if calls != [] {
      var front, call := calls[..|calls| - 1], calls[|calls| - 1];
      assert calls == front + [call];
      FirstRefreshOfPrefix(front, call);
      RefreshedOnce(c, s, r, front);
      assert Joins(c, r, call);
    }
  }

  function Results(c: Config, s: State, calls: seq<Event>): (State, seq<Result<Stored>>) {
    if calls == [] then (s, [])
    else
      var before := Results(c, s, calls[..|calls| - 1]);
      var after := Apply(c, before.0, calls[|calls| - 1]);
      (after.0, before.1 + [after.1])
  }
}
