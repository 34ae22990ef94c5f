/**
 Protection single-flight: the lock table that counts the users of its entries, and the shared solutions
 that callers look up, solve and publish under those locks. Every thread moves in small atomic steps; a
 list of actions is one interleaving.
 */
module Protection {
  import opened Ordering

  type Thread = nat
  type Key = nat
  /** The identity of one lock entry object. */
  type Id = nat

  // ----- The lock table

  /** `table` is the dictionary; `users` and `locked` are fields of the entries, by identity. */
  datatype Registry = Registry(table: map<Key, Id>, users: map<Id, int>, locked: set<Id>, next: Id) {
    function Entry(key: Key): Id {
      if key in table then table[key] else next
    }

    /** Under the guard: find or create the entry, count one more user. */
    function Register(key: Key): Registry {
      if key in table && table[key] in users then this.(users := users[table[key] := users[table[key]] + 1])
      else Registry(table[key := next], users[next := 1], locked, next + 1)
    }

    /** Under the guard: count one user less; the last one takes the entry out, if it is still there. */
    function Unregister(key: Key, id: Id): Registry {
      if id !in users then this
      else
        var left := users[id] - 1;
        Registry(if left == 0 && key in table && table[key] == id then table - {key} else table,
                 users[id := left], locked, next)
    }
  }

  class ProtectionLockRegistry {
    var table: map<Key, Id>
    var users: map<Id, int>
    var locked: set<Id>
    var next: Id

    ghost function Value(): Registry
      reads this
    {
      Registry(table, users, locked, next)
    }

    constructor ()
      ensures Value() == Registry(map[], map[], {}, 0)
    {
      table, users, locked, next := map[], map[], {}, 0;
    }

    method Register(key: Key) returns (id: Id)
      requires key in table ==> table[key] in users
      modifies this
      ensures id == old(Value()).Entry(key) && Value() == old(Value()).Register(key)
    {
      if key !in table {
        table := table[key := next];
        users := users[next := 0];
        next := next + 1;
      }
      id := table[key];
      users := users[id := users[id] + 1];
    }

    /** `lock.acquire(blocking=False)`. */
    method TryAcquire(id: Id) returns (ok: bool)
      modifies this
      ensures ok == (id !in old(locked))
      ensures Value() == old(Value()).(locked := old(locked) + {id})
    {
      ok := id !in locked;
      locked := locked + {id};
    }

    method Release(id: Id)
      modifies this
      ensures Value() == old(Value()).(locked := old(locked) - {id})
    {
      locked := locked - {id};
    }

    method Unregister(key: Key, id: Id)
      requires id in users
      modifies this
      ensures Value() == old(Value()).Unregister(key, id)
    {
      users := users[id := users[id] - 1];
      if users[id] == 0 && key in table && table[key] == id {
        table := table - {key};
      }
    }
  }

  // ----- Callers of `_shared_state`

  /** `serial` is object identity; `identity` the transport fingerprint the solution was acquired under. */
  datatype Managed = Managed(serial: nat, solution: int, identity: Option<string>)

  predicate IdentityMatches(state: Managed, fingerprint: Option<string>) {
    state.identity.None? || fingerprint.None? || state.identity == fingerprint
  }

  datatype Request = Request(key: Key, fingerprint: string, rejected: Option<(Key, Managed)>)

  datatype Phase =
    | Waiting | Holding | Dropped | Solving
    | Done(state: Managed)
    | Failed
    | Leaving(result: Option<Managed>)

  datatype Caller = Caller(request: Request, entry: Id, phase: Phase) {
    predicate Critical() {
      !phase.Waiting? && !phase.Leaving?
    }
  }

  /** A state given to somebody: by `_shared_state` to a caller that is gone, or by `_find_shared_state`. */
  datatype Handed = Given(request: Request, state: Managed) | Found(key: Key, fingerprint: string, state: Managed)

  /** `solves` counts the solves of each key that succeeded; `handed` logs what was given out. */
  datatype State = State(locks: Registry, callers: map<Thread, Caller>, cache: map<Key, Managed>, serial: nat,
                         solves: multiset<Key>, handed: seq<Handed>)

  /** The environment's choices: whether a cached solution is still shareable, what a solver answers. */
  datatype Action =
    | Enter(t: Thread, request: Request)
    | Acquire(t: Thread)
    | Cancel(t: Thread)
    | DropRejected(t: Thread)
    | Look(t: Thread, shareable: bool)
    | Solve(t: Thread, solution: int, applies: bool, shareable: bool)
    | SolveFails(t: Thread)
    | Release(t: Thread)
    | Leave(t: Thread)
    | Find(fingerprint: string, family: set<Key>, live: Managed -> bool, chosen: Option<Key>)
    | Invalidate(keys: set<Key>)
    | Close

  function At(s: State, t: Thread): Option<Phase> {
    if t in s.callers then Some(s.callers[t].phase) else None
  }

  function Move(s: State, t: Thread, phase: Phase): State
    requires t in s.callers
  {
    s.(callers := s.callers[t := s.callers[t].(phase := phase)])
  }

  /** `if _protection_state.get(rejected_key) is rejected_state: pop`. */
  function WithoutRejected(cache: map<Key, Managed>, rejected: Option<(Key, Managed)>): map<Key, Managed> {
    if rejected.Some? && rejected.value.0 in cache && cache[rejected.value.0] == rejected.value.1
    then cache - {rejected.value.0} else cache
  }

  predicate Reusable(s: State, r: Request, shareable: bool) {
    r.key in s.cache && IdentityMatches(s.cache[r.key], Some(r.fingerprint)) && shareable
  }

  /** What `_find_shared_state` may hand out among the keys that share a prefix. */
  function Candidates(cache: map<Key, Managed>, family: set<Key>, fingerprint: string,
                      live: Managed -> bool): set<Key> {
    set k | k in family && k in cache && IdentityMatches(cache[k], Some(fingerprint)) && live(cache[k])
  }

  /** `chosen` is a candidate of the highest generation; none only when there is none. */
  predicate Newest(cache: map<Key, Managed>, candidates: set<Key>, chosen: Option<Key>) {
    if chosen.None? then candidates == {}
    else chosen.value in candidates && chosen.value in cache
         && forall k :: k in candidates && k in cache ==> cache[k].serial <= cache[chosen.value].serial
  }

  function Entered(s: State, t: Thread, r: Request): State {
    s.(locks := s.locks.Register(r.key), callers := s.callers[t := Caller(r, s.locks.Entry(r.key), Waiting)])
  }

  function Acquired(s: State, t: Thread): State
    requires t in s.callers
  {
    Move(s, t, Holding).(locks := s.locks.(locked := s.locks.locked + {s.callers[t].entry}))
  }

  function Released(s: State, t: Thread): State
    requires t in s.callers
  {
    var c := s.callers[t];
    Move(s, t, Leaving(if c.phase.Done? then Some(c.phase.state) else None))
      .(locks := s.locks.(locked := s.locks.locked - {c.entry}))
  }

  function Left(s: State, t: Thread): State
    requires t in s.callers && s.callers[t].phase.Leaving?
  {
    var c := s.callers[t];
    s.(locks := s.locks.Unregister(c.request.key, c.entry), callers := s.callers - {t},
       handed := if c.phase.result.Some? then s.handed + [Given(c.request, c.phase.result.value)] else s.handed)
  }

  /** One action; an action that is not enabled changes nothing. */
  function Step(s: State, a: Action): State {
    match a
    case Enter(t, r) =>
      if t in s.callers then s else Entered(s, t, r)
    case Acquire(t) =>
      if At(s, t) != Some(Waiting) || s.callers[t].entry in s.locks.locked then s
      else Acquired(s, t)
    case Cancel(t) =>
      if At(s, t) != Some(Waiting) then s else Move(s, t, Leaving(None))
    case DropRejected(t) =>
      if At(s, t) != Some(Holding) then s
      else Move(s, t, Dropped).(cache := WithoutRejected(s.cache, s.callers[t].request.rejected))
    case Look(t, shareable) =>
      if At(s, t) != Some(Dropped) then s
      else
        var r := s.callers[t].request;
        if Reusable(s, r, shareable) then Move(s, t, Done(s.cache[r.key]))
        else Move(s, t, Solving).(cache := s.cache - {r.key})
    case Solve(t, solution, applies, shareable) =>
      if At(s, t) != Some(Solving) then s
      else
        var r := s.callers[t].request;
        var state := Managed(s.serial, solution, Some(r.fingerprint));
        var s' := s.(serial := s.serial + 1, solves := s.solves + multiset{r.key});
        if !applies then Move(s', t, Failed)
        else Move(s', t, Done(state)).(cache := if shareable then s.cache[r.key := state] else s.cache)
    case SolveFails(t) =>
      if At(s, t) != Some(Solving) then s else Move(s, t, Failed)
    case Release(t) =>
      if At(s, t).None? || !(s.callers[t].phase.Done? || s.callers[t].phase.Failed?) then s
      else Released(s, t)
    case Leave(t) =>
      if At(s, t).None? || !s.callers[t].phase.Leaving? then s
      else Left(s, t)
    case Find(fingerprint, family, live, chosen) =>
      if !Newest(s.cache, Candidates(s.cache, family, fingerprint, live), chosen) then s
      else
        s.(cache := s.cache - (family - Candidates(s.cache, family, fingerprint, live)),
           handed := if chosen.None? then s.handed
                     else s.handed + [Found(chosen.value, fingerprint, s.cache[chosen.value])])
    case Invalidate(keys) => s.(cache := s.cache - keys)
    case Close => s.(cache := map[], locks := s.locks.(table := map[]))
  }

  function Run(s: State, actions: seq<Action>): State
    decreases |actions|
  {
    if actions == [] then s else Run(Step(s, actions[0]), actions[1..])
  }

  const EMPTY := State(Registry(map[], map[], {}, 0), map[], map[], 0, multiset{}, [])

  // ----- Mutual exclusion

  ghost function Users(callers: map<Thread, Caller>, id: Id): set<Thread> {
    set t | t in callers && callers[t].entry == id
  }

  /** `t` is in the critical section of the entry `id`. */
  predicate Inside(callers: map<Thread, Caller>, t: Thread, id: Id) {
    t in callers && callers[t].Critical() && callers[t].entry == id
  }

  /** The table holds entries, each under one key, and when `strict` only entries in use. */
  ghost predicate TableOk(locks: Registry, strict: bool) {
    && (forall k :: k in locks.table ==> locks.table[k] in locks.users && (strict ==> locks.users[locks.table[k]] > 0))
    && (forall id :: id in locks.users ==> id < locks.next)
    && OneKeyEach(locks.table)
  }

  ghost predicate OneKeyEach(table: map<Key, Id>) {
    forall k, k' :: k in table && k' in table && table[k] == table[k'] ==> k == k'
  }

  /** Each entry counts its callers. */
  ghost predicate CountsOk(users: map<Id, int>, callers: map<Thread, Caller>) {
    forall id :: id in users ==> users[id] == |Users(callers, id)|
  }

  predicate Filed(locks: Registry, c: Caller) {
    c.request.key in locks.table && locks.table[c.request.key] == c.entry
  }

  /** A caller's entry is the one in the table, unless the caller is on its way out and `strict` is not set. */
  predicate FiledOrOut(locks: Registry, c: Caller, strict: bool) {
    c.entry in locks.users && (strict || !c.phase.Leaving? ==> Filed(locks, c))
  }

  ghost predicate AllFiled(locks: Registry, callers: map<Thread, Caller>, strict: bool) {
    forall t :: t in callers ==> FiledOrOut(locks, callers[t], strict)
  }

  ghost predicate Counted(locks: Registry, callers: map<Thread, Caller>, strict: bool) {
    TableOk(locks, strict) && CountsOk(locks.users, callers) && AllFiled(locks, callers, strict)
  }

  /** A lock is held exactly while one caller is inside. */
  ghost predicate Exclusive(locks: Registry, callers: map<Thread, Caller>) {
    && (forall id :: id in locks.locked ==> id < locks.next && exists t :: Inside(callers, t, id))
    && (forall t, id :: Inside(callers, t, id) ==> id in locks.locked)
    && (forall t, t', id :: Inside(callers, t, id) && Inside(callers, t', id) ==> t == t')
  }

  /** Table, counts and locks are right; when not `strict`, up to what a close may drop under callers that are
      on their way out. */
  ghost predicate Registered(s: State, strict: bool) {
    Counted(s.locks, s.callers, strict) && Exclusive(s.locks, s.callers)
  }

  ghost predicate SameInside(a: map<Thread, Caller>, b: map<Thread, Caller>) {
    forall t, id :: Inside(a, t, id) <==> Inside(b, t, id)
  }

  lemma SameInsideKeepsExclusive(l: Registry, a: map<Thread, Caller>, l': Registry, b: map<Thread, Caller>)
    requires Exclusive(l, a) && SameInside(a, b) && l'.locked == l.locked && l.next <= l'.next
    ensures Exclusive(l', b)
  {
    forall id | id in l'.locked ensures exists t :: Inside(b, t, id) {
      var t :| Inside(a, t, id);
      assert Inside(b, t, id);
    }
  }

  lemma EnterKeepsCounted(s: State, t: Thread, r: Request, strict: bool)
    requires Counted(s.locks, s.callers, strict) && t !in s.callers
    ensures Counted(Entered(s, t, r).locks, Entered(s, t, r).callers, strict)
  {
    var l, l' := s.locks, s.locks.Register(r.key);
    var id := l.Entry(r.key);
    var callers' := s.callers[t := Caller(r, id, Waiting)];
    RegisterKeepsTable(l, r.key, strict);
    forall u | u in callers' ensures FiledOrOut(l', callers'[u], strict) {
      assert u == t || FiledOrOut(l, s.callers[u], strict);
    }
    if r.key !in l.table {
      NoUsersYet(l, s.callers, id, strict);
    }
    EnterKeepsCounts(l.users, s.callers, t, callers'[t]);
  }

  lemma EnterKeepsCounts(users: map<Id, int>, callers: map<Thread, Caller>, t: Thread, c: Caller)
    requires CountsOk(users, callers) && t !in callers
    requires c.entry !in users ==> Users(callers, c.entry) == {}
    ensures CountsOk(users[c.entry := (if c.entry in users then users[c.entry] else 0) + 1], callers[t := c])
  {
    var users' := users[c.entry := (if c.entry in users then users[c.entry] else 0) + 1];
    forall i | i in users' ensures users'[i] == |Users(callers[t := c], i)| {
      OneMoreUser(callers, t, c, i);
    }
  }

  lemma OneMoreUser(callers: map<Thread, Caller>, t: Thread, c: Caller, id: Id)
    requires t !in callers
    ensures |Users(callers[t := c], id)| == |Users(callers, id)| + (if c.entry == id then 1 else 0)
  {
    if c.entry == id {
      assert Users(callers[t := c], id) == Users(callers, id) + {t};
    } else {
      assert Users(callers[t := c], id) == Users(callers, id);
    }
  }

  lemma RegisterKeepsTable(l: Registry, key: Key, strict: bool)
    requires TableOk(l, strict)
    ensures var l' := l.Register(key);
            && TableOk(l', strict) && key in l'.table && l'.table[key] == l.Entry(key) && l.users.Keys <= l'.users.Keys
            && l.Entry(key) in l'.users
            && (forall k :: k in l.table ==> k in l'.table && l'.table[k] == l.table[k])
  {
    var l' := l.Register(key);
    if key !in l.table {
      assert forall k :: k in l.table ==> l.table[k] < l.next;
      assert OneKeyEach(l'.table);
    } else {
      assert l'.table == l.table;
    }
  }

  lemma NoUsersYet(l: Registry, callers: map<Thread, Caller>, id: Id, strict: bool)
    requires Counted(l, callers, strict) && id >= l.next
    ensures Users(callers, id) == {}
  {
    forall t | t in callers ensures callers[t].entry != id {
      assert FiledOrOut(l, callers[t], strict);
    }
  }

  lemma LeaveKeepsCounted(s: State, t: Thread, strict: bool)
    requires Counted(s.locks, s.callers, strict) && t in s.callers
    ensures Counted(s.locks.Unregister(s.callers[t].request.key, s.callers[t].entry), s.callers - {t}, strict)
  {
    var c := s.callers[t];
    assert FiledOrOut(s.locks, c, strict);
    UnregisterKeepsTable(s.locks, c.request.key, c.entry, strict);
    LeaveKeepsCounts(s.locks, s.callers, t);
    LeaveKeepsFiled(s.locks, s.callers, t, strict);
  }

  lemma UnregisterKeepsTable(l: Registry, key: Key, id: Id, strict: bool)
    requires TableOk(l, strict) && id in l.users && (strict ==> key in l.table && l.table[key] == id)
    ensures TableOk(l.Unregister(key, id), strict)
  {
  }

  lemma LeaveKeepsCounts(l: Registry, callers: map<Thread, Caller>, t: Thread)
    requires CountsOk(l.users, callers) && t in callers
    ensures CountsOk(l.Unregister(callers[t].request.key, callers[t].entry).users, callers - {t})
  {
    var users' := l.Unregister(callers[t].request.key, callers[t].entry).users;
    forall i | i in users' ensures users'[i] == |Users(callers - {t}, i)| {
      assert (callers - {t})[t := callers[t]] == callers;
      OneMoreUser(callers - {t}, t, callers[t], i);
    }
  }

  lemma LeaveKeepsFiled(l: Registry, callers: map<Thread, Caller>, t: Thread, strict: bool)
    requires Counted(l, callers, strict) && t in callers
    ensures AllFiled(l.Unregister(callers[t].request.key, callers[t].entry), callers - {t}, strict)
  {
    var c, l' := callers[t], l.Unregister(callers[t].request.key, callers[t].entry);
    LeaveKeepsCounts(l, callers, t);
    assert FiledOrOut(l, c, strict);
    forall u | u in callers - {t} ensures FiledOrOut(l', callers[u], strict) {
      assert FiledOrOut(l, callers[u], strict);
      if callers[u].entry == c.entry {
        assert u in Users(callers - {t}, c.entry);
      }
    }
  }

  /** A caller on its way out stays so. */
  lemma MoveKeepsCounted(s: State, t: Thread, phase: Phase, locked: set<Id>, strict: bool)
    requires Counted(s.locks, s.callers, strict) && t in s.callers && (phase.Leaving? || !s.callers[t].phase.Leaving?)
    ensures Counted(s.locks.(locked := locked), Move(s, t, phase).callers, strict)
  {
    var callers' := Move(s, t, phase).callers;
    forall i | i in s.locks.users ensures s.locks.users[i] == |Users(callers', i)| {
      assert Users(callers', i) == Users(s.callers, i);
    }
    forall u | u in callers' ensures FiledOrOut(s.locks, callers'[u], strict) {
      assert FiledOrOut(s.locks, s.callers[u], strict);
    }
  }

  lemma LockKeepsExclusive(s: State, t: Thread, phase: Phase)
    requires Exclusive(s.locks, s.callers) && t in s.callers && s.callers[t].entry < s.locks.next
    requires var c := s.callers[t]; !c.Critical() && c.(phase := phase).Critical() && c.entry !in s.locks.locked
    ensures Exclusive(s.locks.(locked := s.locks.locked + {s.callers[t].entry}), Move(s, t, phase).callers)
  {
    var callers', id := Move(s, t, phase).callers, s.callers[t].entry;
    assert forall u, i :: Inside(callers', u, i) <==> Inside(s.callers, u, i) || (u == t && i == id);
    forall i | i in s.locks.locked + {id} ensures exists u :: Inside(callers', u, i) {
      if i == id {
        assert Inside(callers', t, i);
      } else {
        var u :| Inside(s.callers, u, i);
        assert Inside(callers', u, i);
      }
    }
  }

  lemma UnlockKeepsExclusive(s: State, t: Thread, phase: Phase)
    requires Exclusive(s.locks, s.callers) && t in s.callers
    requires s.callers[t].Critical() && !s.callers[t].(phase := phase).Critical()
    ensures Exclusive(s.locks.(locked := s.locks.locked - {s.callers[t].entry}), Move(s, t, phase).callers)
  {
    var callers', id := Move(s, t, phase).callers, s.callers[t].entry;
    assert Inside(s.callers, t, id);
    assert forall u, i :: Inside(callers', u, i) <==> Inside(s.callers, u, i) && u != t;
    forall i | i in s.locks.locked - {id} ensures exists u :: Inside(callers', u, i) {
      var u :| Inside(s.callers, u, i);
      assert Inside(callers', u, i);
    }
  }

  /** Moves that stay on one side of the lock. */
  lemma MoveKeepsRegistered(s: State, t: Thread, phase: Phase, strict: bool)
    requires Registered(s, strict) && t in s.callers && (phase.Leaving? || !s.callers[t].phase.Leaving?)
    requires s.callers[t].Critical() == s.callers[t].(phase := phase).Critical()
    ensures Registered(Move(s, t, phase), strict)
  {
    MoveKeepsCounted(s, t, phase, s.locks.locked, strict);
    SameInsideKeepsExclusive(s.locks, s.callers, s.locks, Move(s, t, phase).callers);
  }

  /** A caller outside the critical section changes nothing about who is inside. */
  lemma EnterSameInside(callers: map<Thread, Caller>, t: Thread, c: Caller)
    requires t !in callers && !c.Critical()
    ensures SameInside(callers, callers[t := c]) && SameInside(callers[t := c], callers)
  {
  }

  lemma EnterKeepsRegistered(s: State, t: Thread, r: Request, strict: bool)
    requires Registered(s, strict) && t !in s.callers
    ensures Registered(Entered(s, t, r), strict)
  {
    var s' := Entered(s, t, r);
    EnterKeepsCounted(s, t, r, strict);
    EnterSameInside(s.callers, t, s'.callers[t]);
    SameInsideKeepsExclusive(s.locks, s.callers, s'.locks, s'.callers);
  }

  lemma LeaveKeepsRegistered(s: State, t: Thread, strict: bool)
    requires Registered(s, strict) && t in s.callers && s.callers[t].phase.Leaving?
    ensures Registered(Left(s, t), strict)
  {
    var s' := Left(s, t);
    LeaveKeepsCounted(s, t, strict);
    EnterSameInside(s.callers - {t}, t, s.callers[t]);
    assert (s.callers - {t})[t := s.callers[t]] == s.callers;
    assert s'.locks.locked == s.locks.locked && s'.locks.next == s.locks.next;
    SameInsideKeepsExclusive(s.locks, s.callers, s'.locks, s'.callers);
  }

  lemma AcquireKeepsRegistered(s: State, t: Thread, strict: bool)
    requires Registered(s, strict) && At(s, t) == Some(Waiting) && s.callers[t].entry !in s.locks.locked
    ensures Registered(Acquired(s, t), strict)
  {
    assert FiledOrOut(s.locks, s.callers[t], strict);
    MoveKeepsCounted(s, t, Holding, s.locks.locked + {s.callers[t].entry}, strict);
    LockKeepsExclusive(s, t, Holding);
  }

  lemma ReleaseKeepsRegistered(s: State, t: Thread, strict: bool)
    requires Registered(s, strict) && t in s.callers && (s.callers[t].phase.Done? || s.callers[t].phase.Failed?)
    ensures Registered(Released(s, t), strict)
  {
    var phase := Released(s, t).callers[t].phase;
    MoveKeepsCounted(s, t, phase, s.locks.locked - {s.callers[t].entry}, strict);
    UnlockKeepsExclusive(s, t, phase);
  }

  lemma StepKeepsRegistered(s: State, a: Action, strict: bool)
    requires Registered(s, strict) && !a.Close?
    ensures Registered(Step(s, a), strict)
  {
    var s' := Step(s, a);
    if s' != s {
      match a
      case Enter(t, r) => EnterKeepsRegistered(s, t, r, strict);
      case Leave(t) => LeaveKeepsRegistered(s, t, strict);
      case Acquire(t) => AcquireKeepsRegistered(s, t, strict);
      case Release(t) => ReleaseKeepsRegistered(s, t, strict);
      case Invalidate(_) =>
      case Find(_, _, _, _) =>
      case Cancel(t) => MoveKeepsRegistered(s, t, s'.callers[t].phase, strict);
      case DropRejected(t) => WorkKeepsRegistered(s, t, a, strict);
      case Look(t, _) => WorkKeepsRegistered(s, t, a, strict);
      case Solve(t, _, _, _) => WorkKeepsRegistered(s, t, a, strict);
      case SolveFails(t) => WorkKeepsRegistered(s, t, a, strict);
    }
  }

  /** The work done inside the critical section. */
  lemma WorkKeepsRegistered(s: State, t: Thread, a: Action, strict: bool)
    requires Registered(s, strict) && (a.DropRejected? || a.Look? || a.Solve? || a.SolveFails?)
             && t == a.t && Step(s, a) != s
    ensures Registered(Step(s, a), strict)
  {
    MoveKeepsRegistered(s, t, Step(s, a).callers[t].phase, strict);
  }

  ghost predicate NeverCloses(actions: seq<Action>) {
    forall i :: 0 <= i < |actions| ==> !actions[i].Close?
  }

  lemma {:induction false} RunKeepsRegistered(s: State, actions: seq<Action>, strict: bool)
    requires Registered(s, strict) && NeverCloses(actions)
    ensures Registered(Run(s, actions), strict)
    decreases |actions|
  {
    if actions != [] {
      StepKeepsRegistered(s, actions[0], strict);
      RunKeepsRegistered(Step(s, actions[0]), actions[1..], strict);
    }
  }

  /** Every state that runs without a close reach. */
  lemma ReachableIsRegistered(actions: seq<Action>)
    requires NeverCloses(actions)
    ensures Registered(Run(EMPTY, actions), true)
  {
    assert Registered(EMPTY, true);
    RunKeepsRegistered(EMPTY, actions, true);
  }

  ghost function CallersOf(s: State, k: Key): set<Thread> {
    set t | t in s.callers && s.callers[t].request.key == k
  }

  /** Both are in the critical section of one key. */
  predicate InsideTogether(callers: map<Thread, Caller>, t: Thread, t': Thread) {
    && t in callers && t' in callers && callers[t].Critical() && callers[t'].Critical()
    && callers[t].request.key == callers[t'].request.key
  }

  lemma OneInsidePerKey(s: State, t: Thread, t': Thread, strict: bool)
    requires Registered(s, strict) && InsideTogether(s.callers, t, t')
    ensures t == t'
  {
    assert FiledOrOut(s.locks, s.callers[t], strict) && FiledOrOut(s.locks, s.callers[t'], strict);
    assert Inside(s.callers, t, s.callers[t].entry) && Inside(s.callers, t', s.callers[t].entry);
  }

  /** `k` has an entry exactly while it has callers, and the entry counts them. */
  ghost predicate EntryCounts(s: State, k: Key) {
    && (k in s.locks.table <==> CallersOf(s, k) != {})
    && (k in s.locks.table ==> s.locks.table[k] in s.locks.users
                               && s.locks.users[s.locks.table[k]] == |CallersOf(s, k)|)
  }

  lemma TableCountsCallers(s: State, k: Key)
    requires Registered(s, true)
    ensures EntryCounts(s, k)
  {
    forall t | t in s.callers ensures Filed(s.locks, s.callers[t]) {
      assert FiledOrOut(s.locks, s.callers[t], true);
    }
    if k in s.locks.table {
      assert Users(s.callers, s.locks.table[k]) == CallersOf(s, k);
    }
  }

  /** Whatever the interleaving, at most one caller is inside per key. */
  lemma AtMostOneInside(actions: seq<Action>, t: Thread, t': Thread)
    requires NeverCloses(actions)
    ensures InsideTogether(Run(EMPTY, actions).callers, t, t') ==> t == t'
  {
    ReachableIsRegistered(actions);
    var s := Run(EMPTY, actions);
    if InsideTogether(s.callers, t, t') {
      OneInsidePerKey(s, t, t', true);
    }
  }

  /** An entry is in the table exactly while callers use it, and it counts them. */
  lemma EntryCountsItsCallers(actions: seq<Action>, k: Key)
    requires NeverCloses(actions)
    ensures EntryCounts(Run(EMPTY, actions), k)
  {
    ReachableIsRegistered(actions);
    TableCountsCallers(Run(EMPTY, actions), k);
  }

  /** Once every caller is gone, no entry and no held lock is left behind. */
  lemma NothingLeftBehind(actions: seq<Action>)
    requires NeverCloses(actions) && Run(EMPTY, actions).callers == map[]
    ensures Run(EMPTY, actions).locks.table == map[] && Run(EMPTY, actions).locks.locked == {}
  {
    ReachableIsRegistered(actions);
    NobodyHereNothingHeld(Run(EMPTY, actions));
  }

  lemma NobodyHereNothingHeld(s: State)
    requires Registered(s, true) && s.callers == map[]
    ensures s.locks.table == map[] && s.locks.locked == {}
  {
    forall k ensures k !in s.locks.table {
      TableCountsCallers(s, k);
      assert CallersOf(s, k) == {};
    }
  }

  // ----- Closing under callers

  /** Every caller has released its lock, or given up, and will only unregister. */
  predicate AllOnTheirWayOut(callers: map<Thread, Caller>) {
    forall t :: t in callers ==> callers[t].phase.Leaving?
  }

  lemma CloseKeepsRegistered(s: State, strict: bool)
    requires Registered(s, strict) && AllOnTheirWayOut(s.callers)
    ensures Registered(Step(s, Close), false)
  {
    forall t | t in s.callers ensures FiledOrOut(Step(s, Close).locks, s.callers[t], false) {
      assert FiledOrOut(s.locks, s.callers[t], strict);
    }
  }

  /** Every close of the run finds all callers on their way out. */
  predicate ClosesQuietly(s: State, actions: seq<Action>)
    decreases |actions|
  {
    actions == [] || ((actions[0].Close? ==> AllOnTheirWayOut(s.callers))
                      && ClosesQuietly(Step(s, actions[0]), actions[1..]))
  }

  lemma {:induction false} QuietRunKeepsRegistered(s: State, actions: seq<Action>)
    requires Registered(s, false) && ClosesQuietly(s, actions)
    ensures Registered(Run(s, actions), false)
    decreases |actions|
  {
    if actions != [] {
      if actions[0].Close? {
        CloseKeepsRegistered(s, false);
      } else {
        StepKeepsRegistered(s, actions[0], false);
      }
      QuietRunKeepsRegistered(Step(s, actions[0]), actions[1..]);
    }
  }

  /** Exclusion holds in every run whose closes find all callers on their way out. */
  lemma QuietClosesKeepExclusion(actions: seq<Action>, t: Thread, t': Thread)
    requires ClosesQuietly(EMPTY, actions)
    ensures InsideTogether(Run(EMPTY, actions).callers, t, t') ==> t == t'
  {
    assert Registered(EMPTY, false);
    QuietRunKeepsRegistered(EMPTY, actions);
    if InsideTogether(Run(EMPTY, actions).callers, t, t') {
      OneInsidePerKey(Run(EMPTY, actions), t, t', false);
    }
  }

  /** Two different callers are inside one key. */
  ghost predicate ExclusionBroken(s: State) {
    exists t, t' :: t != t' && InsideTogether(s.callers, t, t')
  }

  /** A thread that is not in a call. */
  lemma {:induction false} FreeThread(callers: map<Thread, Caller>, from: Thread) returns (t: Thread)
    ensures t !in callers && t >= from
    decreases |callers|
  {
    t := from;
    if from in callers {
      assert |callers - {from}| < |callers| by {
        assert callers.Keys == (callers - {from}).Keys + {from};
      }
      t := FreeThread(callers - {from}, from + 1);
    }
  }

  /** After a close, a new caller gets a new entry and goes in beside whoever is inside already. */
  lemma SecondGoesIn(s: State, u: Thread, t: Thread)
    requires s.locks.table == map[] && (forall id :: id in s.locks.locked ==> id < s.locks.next)
    requires u in s.callers && s.callers[u].Critical() && t !in s.callers
    ensures var r := Request(s.callers[u].request.key, "", None);
            ExclusionBroken(Run(s, [Enter(t, r), Acquire(t)]))
  {
    var r := Request(s.callers[u].request.key, "", None);
    var s1 := Step(s, Enter(t, r));
    var s2 := Step(s1, Acquire(t));
    assert [Enter(t, r), Acquire(t)][1..] == [Acquire(t)] && [Acquire(t)][1..] == [];
    assert Run(s1, [Acquire(t)]) == Run(s2, []) == s2;
    assert InsideTogether(s2.callers, u, t);
  }

  /** Somebody who is not on the way out lets a close break exclusion. */
  lemma CloseBreaks(s: State, t: Thread, strict: bool) returns (actions: seq<Action>)
    requires Registered(s, strict) && t in s.callers && !s.callers[t].phase.Leaving?
    ensures NeverCloses(actions) && ExclusionBroken(Run(Step(s, Close), actions))
  {
    var closed := Step(s, Close);
    var n := FreeThread(s.callers, 0);
    assert FiledOrOut(s.locks, s.callers[t], strict);
    if s.callers[t].Critical() {
      SecondGoesIn(closed, t, n);
      actions := [Enter(n, Request(s.callers[t].request.key, "", None)), Acquire(n)];
    } else if s.callers[t].entry in s.locks.locked {
      var u :| Inside(s.callers, u, s.callers[t].entry);
      assert FiledOrOut(s.locks, s.callers[u], strict);
      SecondGoesIn(closed, u, n);
      actions := [Enter(n, Request(s.callers[u].request.key, "", None)), Acquire(n)];
    } else {
      var inside := Step(closed, Acquire(t));
      SecondGoesIn(inside, t, n);
      var rest := [Enter(n, Request(s.callers[t].request.key, "", None)), Acquire(n)];
      actions := [Acquire(t)] + rest;
      assert actions[1..] == rest;
    }
  }

  /** A close endangers exclusion exactly when some caller is not on its way out. */
  lemma CloseKeepsExclusionIff(s: State, strict: bool)
    requires Registered(s, strict)
    ensures (exists actions :: NeverCloses(actions) && ExclusionBroken(Run(Step(s, Close), actions)))
       <==> !AllOnTheirWayOut(s.callers)
  {
    if AllOnTheirWayOut(s.callers) {
      forall actions | NeverCloses(actions) ensures !ExclusionBroken(Run(Step(s, Close), actions)) {
        var after := Run(Step(s, Close), actions);
        CloseKeepsRegistered(s, strict);
        RunKeepsRegistered(Step(s, Close), actions, false);
        forall t, t' | InsideTogether(after.callers, t, t') ensures t == t' {
          OneInsidePerKey(after, t, t', false);
        }
      }
    } else {
      var t :| t in s.callers && !s.callers[t].phase.Leaving?;
      var actions := CloseBreaks(s, t, strict);
    }
  }

  /** The table keeps counting everybody exactly when nobody is registered. */
  lemma CloseKeepsTableIffNobodyRegistered(s: State)
    requires Registered(s, true)
    ensures Registered(Step(s, Close), true) <==> s.callers == map[]
  {
    if s.callers != map[] {
      var t :| t in s.callers;
      assert !FiledOrOut(Step(s, Close).locks, s.callers[t], true);
    } else {
      forall id | id in s.locks.users ensures s.locks.users[id] == 0 {
        assert Users(s.callers, id) == {};
      }
    }
  }

  /** A close in the middle of a call lets a second caller in beside the first. */
  lemma CloseBreaksExclusion(k: Key, fingerprint: string)
    ensures var r := Request(k, fingerprint, None);
            var s := Run(EMPTY, [Enter(0, r), Acquire(0), Close, Enter(1, r), Acquire(1)]);
            && 0 in s.callers && 1 in s.callers && s.callers[0].Critical() && s.callers[1].Critical()
            && s.callers[0].request.key == s.callers[1].request.key
  {
    var r := Request(k, fingerprint, None);
    var s1 := Step(EMPTY, Enter(0, r));
    var s2 := Step(s1, Acquire(0));
    var s3 := Step(Step(s2, Close), Enter(1, r));
    assert Run(EMPTY, [Enter(0, r), Acquire(0), Close, Enter(1, r), Acquire(1)])
        == Run(s1, [Acquire(0), Close, Enter(1, r), Acquire(1)])
        == Run(s2, [Close, Enter(1, r), Acquire(1)])
        == Run(Step(s2, Close), [Enter(1, r), Acquire(1)])
        == Run(s3, [Acquire(1)]) == Run(Step(s3, Acquire(1)), []);
  }

  // ----- Whose solution a caller gets

  predicate ResultMatches(c: Caller) {
    && (c.phase.Done? ==> c.phase.state.identity == Some(c.request.fingerprint))
    && (c.phase.Leaving? && c.phase.result.Some? ==> c.phase.result.value.identity == Some(c.request.fingerprint))
  }

  function AskedUnder(h: Handed): string {
    if h.Given? then h.request.fingerprint else h.fingerprint
  }

  ghost predicate Fingerprinted(s: State) {
    && (forall k :: k in s.cache ==> s.cache[k].identity.Some?)
    && (forall t :: t in s.callers ==> ResultMatches(s.callers[t]))
    && (forall i :: 0 <= i < |s.handed| ==> s.handed[i].state.identity == Some(AskedUnder(s.handed[i])))
  }

  lemma StepKeepsFingerprinted(s: State, a: Action)
    requires Fingerprinted(s)
    ensures Fingerprinted(Step(s, a))
  {
  }

  /** Whatever happens, even a close, a state handed to a caller was acquired under its fingerprint. */
  lemma {:induction false} HandedUnderOwnFingerprint(s: State, actions: seq<Action>)
    requires Fingerprinted(s)
    ensures Fingerprinted(Run(s, actions))
    decreases |actions|
  {
    if actions != [] {
      StepKeepsFingerprinted(s, actions[0]);
      HandedUnderOwnFingerprint(Step(s, actions[0]), actions[1..]);
    }
  }

  // ----- How often a challenge is solved

  /** A caller of `r.key` asks `r`; no other rejects a state of that key, unless it is the one `r` rejects. */
  predicate Compatible(q: Request, r: Request) {
    && (q.key == r.key ==> q == r)
    && (q.rejected.Some? && q.rejected.value.0 == r.key ==> q.rejected == r.rejected)
  }

  /** Callers of `r.key` find the solver working and the solution shareable; other keys are left to
      themselves. Nobody closes, invalidates `r.key`, or takes a usable state for stale. */
  predicate Calm(s: State, a: Action, r: Request) {
    match a
    case Enter(_, q) => Compatible(q, r)
    case Look(t, shareable) => Asks(s, t, r) ==> shareable
    case Solve(t, _, applies, shareable) => Asks(s, t, r) ==> applies && shareable
    case SolveFails(t) => !Asks(s, t, r)
    case Find(fingerprint, family, live, _) =>
      r.key in family && Usable(s.cache, r) ==> fingerprint == r.fingerprint && live(s.cache[r.key])
    case Invalidate(keys) => r.key !in keys
    case Close => false
    case _ => true
  }

  predicate Asks(s: State, t: Thread, r: Request) {
    t in s.callers && s.callers[t].request.key == r.key
  }

  predicate AllCalm(s: State, actions: seq<Action>, r: Request)
    decreases |actions|
  {
    actions == [] || (Calm(s, actions[0], r) && AllCalm(Step(s, actions[0]), actions[1..], r))
  }

  /** A state of `r.key` that `r` does not reject and can use. */
  predicate Usable(cache: map<Key, Managed>, r: Request) {
    r.key in cache && r.rejected != Some((r.key, cache[r.key])) && IdentityMatches(cache[r.key], Some(r.fingerprint))
  }

  /** Of the callers of `r.key`: nobody is solving, and whoever has a result has the cached one. */
  predicate HasOnly(c: Caller, state: Managed) {
    && !c.phase.Solving? && !c.phase.Failed?
    && (c.phase.Done? ==> c.phase.state == state)
    && (c.phase.Leaving? && c.phase.result.Some? ==> c.phase.result.value == state)
  }

  predicate AllHave(callers: map<Thread, Caller>, handed: seq<Handed>, key: Key, state: Managed) {
    && (forall t :: t in callers && callers[t].request.key == key ==> HasOnly(callers[t], state))
    && (forall i :: 0 <= i < |handed| && handed[i].Given? && handed[i].request.key == key ==> handed[i].state == state)
  }

  /** Of the callers of `r.key`: nobody has a result, and whoever looked past the rejected state finds nothing
      usable there. */
  predicate HasNone(c: Caller, cache: map<Key, Managed>, r: Request) {
    && !c.phase.Done? && !c.phase.Failed?
    && (c.phase.Leaving? ==> c.phase.result.None?)
    && (c.phase.Dropped? || c.phase.Solving? ==>
          !(r.key in cache && IdentityMatches(cache[r.key], Some(r.fingerprint))))
  }

  predicate NobodyGiven(handed: seq<Handed>, r: Request) {
    forall i :: 0 <= i < |handed| && handed[i].Given? ==> handed[i].request.key != r.key
  }

  predicate NobodyHas(callers: map<Thread, Caller>, cache: map<Key, Managed>, r: Request) {
    forall t :: t in callers && callers[t].request.key == r.key ==> HasNone(callers[t], cache, r)
  }

  ghost predicate Settled(s: State, r: Request) {
    Usable(s.cache, r) && AllHave(s.callers, s.handed, r.key, s.cache[r.key])
  }

  ghost predicate Unsettled(s: State, r: Request) {
    !Usable(s.cache, r) && NobodyGiven(s.handed, r) && NobodyHas(s.callers, s.cache, r)
  }

  ghost predicate OneQuestion(s: State, r: Request) {
    && (forall t :: t in s.callers ==> Compatible(s.callers[t].request, r))
    && (r.rejected.Some? ==> r.rejected.value.1.serial < s.serial)
  }

  lemma StepKeepsQuestion(s: State, r: Request, a: Action)
    requires OneQuestion(s, r) && Calm(s, a, r)
    ensures OneQuestion(Step(s, a), r)
  {
  }

  lemma StepKeepsAnswers(s: State, r: Request, a: Action)
    requires OneQuestion(s, r) && Settled(s, r) && Calm(s, a, r)
    ensures AllHave(Step(s, a).callers, Step(s, a).handed, r.key, s.cache[r.key])
  {
  }

  lemma StepKeepsUsable(s: State, r: Request, a: Action)
    requires OneQuestion(s, r) && Settled(s, r) && Calm(s, a, r)
    ensures r.key in Step(s, a).cache && Step(s, a).cache[r.key] == s.cache[r.key]
    ensures Step(s, a).solves[r.key] == s.solves[r.key]
  {
  }

  /** Once a usable state is cached, it stays and nobody solves for its key again. */
  lemma StepKeepsSettled(s: State, r: Request, a: Action)
    requires OneQuestion(s, r) && Settled(s, r) && Calm(s, a, r)
    ensures Settled(Step(s, a), r) && Step(s, a).solves[r.key] == s.solves[r.key]
    ensures Step(s, a).cache[r.key] == s.cache[r.key]
  {
    StepKeepsUsable(s, r, a);
    StepKeepsAnswers(s, r, a);
  }

  /** The step in which a caller of `r.key` solves. */
  predicate SolvesFor(s: State, a: Action, r: Request) {
    a.Solve? && At(s, a.t) == Some(Solving) && Asks(s, a.t, r)
  }

  lemma StaysUnusable(s: State, r: Request, a: Action)
    requires OneQuestion(s, r) && Unsettled(s, r) && Calm(s, a, r) && !SolvesFor(s, a, r)
    ensures !Usable(Step(s, a).cache, r) && Step(s, a).solves[r.key] == s.solves[r.key]
  {
  }

  lemma StaysUngiven(s: State, r: Request, a: Action)
    requires OneQuestion(s, r) && Unsettled(s, r) && Calm(s, a, r) && !SolvesFor(s, a, r)
    ensures NobodyGiven(Step(s, a).handed, r)
  {
  }

  lemma StaysUnanswered(s: State, r: Request, a: Action)
    requires OneQuestion(s, r) && Unsettled(s, r) && Calm(s, a, r) && !SolvesFor(s, a, r)
    ensures NobodyHas(Step(s, a).callers, Step(s, a).cache, r)
  {
  }

  lemma StaysUnsettled(s: State, r: Request, a: Action)
    requires OneQuestion(s, r) && Unsettled(s, r) && Calm(s, a, r) && !SolvesFor(s, a, r)
    ensures Unsettled(Step(s, a), r) && Step(s, a).solves[r.key] == s.solves[r.key]
  {
    StaysUnusable(s, r, a);
    StaysUngiven(s, r, a);
    StaysUnanswered(s, r, a);
  }

  lemma SolveSettles(s: State, r: Request, a: Action)
    requires Registered(s, true) && OneQuestion(s, r) && Unsettled(s, r) && Calm(s, a, r) && SolvesFor(s, a, r)
    ensures Settled(Step(s, a), r) && Step(s, a).solves[r.key] == s.solves[r.key] + 1
  {
    forall t | t in s.callers && t != a.t && Asks(s, t, r) ensures !s.callers[t].Critical() {
      if s.callers[t].Critical() { OneInsidePerKey(s, t, a.t, true); }
    }
  }

  /** Until then nobody has a result, and the first solve settles the question. */
  lemma StepFromUnsettled(s: State, r: Request, a: Action)
    requires Registered(s, true) && OneQuestion(s, r) && Unsettled(s, r) && Calm(s, a, r)
    ensures var s' := Step(s, a);
            if s'.solves[r.key] == s.solves[r.key] then Unsettled(s', r)
            else s'.solves[r.key] == s.solves[r.key] + 1 && Settled(s', r)
  {
    if SolvesFor(s, a, r) {
      SolveSettles(s, r, a);
    } else {
      StaysUnsettled(s, r, a);
    }
  }

  lemma {:induction false} RunSettled(s: State, r: Request, actions: seq<Action>)
    requires OneQuestion(s, r) && Settled(s, r) && AllCalm(s, actions, r)
    ensures Settled(Run(s, actions), r) && Run(s, actions).solves[r.key] == s.solves[r.key]
    decreases |actions|
  {
    if actions != [] {
      StepKeepsQuestion(s, r, actions[0]);
      StepKeepsSettled(s, r, actions[0]);
      RunSettled(Step(s, actions[0]), r, actions[1..]);
    }
  }

  lemma {:induction false} RunUnsettled(s: State, r: Request, actions: seq<Action>)
    requires Registered(s, true) && OneQuestion(s, r) && Unsettled(s, r) && AllCalm(s, actions, r)
    ensures var s' := Run(s, actions);
            if s'.solves[r.key] == s.solves[r.key] then Unsettled(s', r)
            else s'.solves[r.key] == s.solves[r.key] + 1 && Settled(s', r)
    decreases |actions|
  {
    if actions != [] {
      var s1 := Step(s, actions[0]);
      StepKeepsRegistered(s, actions[0], true);
      StepKeepsQuestion(s, r, actions[0]);
      StepFromUnsettled(s, r, actions[0]);
      if s1.solves[r.key] == s.solves[r.key] {
        RunUnsettled(s1, r, actions[1..]);
      } else {
        RunSettled(s1, r, actions[1..]);
      }
    }
  }

  /** However many callers ask `r`, in whatever interleaving with callers of other keys and with lookups: they
      solve `r.key` once, or not at all when a usable state is already there, and every caller that is given a
      state is given the same one. */
  lemma OneSolve(cache: map<Key, Managed>, serial: nat, r: Request, actions: seq<Action>)
    requires r.rejected.Some? ==> r.rejected.value.1.serial < serial
    requires AllCalm(EMPTY.(cache := cache, serial := serial), actions, r)
    ensures var s := Run(EMPTY.(cache := cache, serial := serial), actions);
            && s.solves[r.key] <= (if Usable(cache, r) then 0 else 1)
            && (forall i :: 0 <= i < |s.handed| && s.handed[i].Given? && s.handed[i].request.key == r.key ==>
                  && s.solves[r.key] == (if Usable(cache, r) then 0 else 1)
                  && r.key in s.cache && s.handed[i].state == s.cache[r.key])
  {
    var s0 := EMPTY.(cache := cache, serial := serial);
    if Usable(cache, r) {
      RunSettled(s0, r, actions);
    } else {
      RunUnsettled(s0, r, actions);
    }
  }
}
