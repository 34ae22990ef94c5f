/**
 Whose session a call saves or returns: which source is asked, in which order, and that nothing is kept that was not
 parsed and accepted at that moment.
 */
module SessionOrigins {
  import opened Ordering
  import opened Sessions

  /** `raw` was got, and parses to `value`. */
  predicate Parses(c: Config, raw: Option<int>, value: int) {
    raw.Some? && c.parse(raw.value) == Some(value)
  }

  /** A new session is good: it was got, it parses, and it is accepted. */
  predicate Good(c: Config, raw: Option<int>, verdict: Verdict, value: int) {
    Parses(c, raw, value) && verdict == Accepted
  }

  /** The record is replaced by refreshing it: it is there, rejected, and there is a refresher. */
  predicate AsksRefresher(c: Config, s: State, a: Answers) {
    s.stored.Some? && a.stored == Rejected && c.refreshes
  }

  /** Without a record, or with a rejected one that cannot be refreshed, the initial session and the acquirer are
      asked. */
  predicate StartsAnew(c: Config, s: State, a: Answers) {
    s.stored.None? || (a.stored == Rejected && !c.refreshes)
  }

  /** The initial session, if there is one, parses and is rejected. */
  predicate InitialWillNotDo(c: Config, a: Answers) {
    c.initial.Some? ==> c.parse(c.initial.value).Some? && a.initial == Rejected
  }

  /** `resolve` takes its new session from here, and it is good. */
  predicate ResolveTakes(c: Config, s: State, a: Answers, value: int) {
    || (AsksRefresher(c, s, a) && Good(c, a.refreshed, a.renewed, value))
    || (StartsAnew(c, s, a) && Good(c, c.initial, a.initial, value))
    || (StartsAnew(c, s, a) && InitialWillNotDo(c, a) && c.acquires && Good(c, a.acquired, a.renewed, value))
  }

  /** The call may save this session. */
  predicate Takes(c: Config, s: State, e: Event, value: int) {
    match e
    case Resolving(a) => ResolveTakes(c, s, a, value)
    case Adopting(raw, a) => Good(c, Some(raw), a.renewed, value)
    case Refreshing(_, a) => s.stored.Some? && c.refreshes && Good(c, a.refreshed, a.renewed, value)
    case Invalidating(_) => false
  }

  predicate SavedOne(s: State, after: (State, Result<Stored>)) {
    after.1.Ok? && after.0.stored == Some(after.1.value) && after.0.saved == s.saved + [after.1.value.revision]
  }

  /** The call saved nothing and left the record or lost it; what it returned is the record. */
  predicate SavedNone(s: State, after: (State, Result<Stored>)) {
    && after.0.saved == s.saved && (after.0.stored == s.stored || after.0.stored.None?)
    && (after.1.Ok? ==> s.stored == Some(after.1.value) && after.0.stored == s.stored)
  }

  lemma RefresherSaves(c: Config, s: State, current: Stored, a: Answers)
    ensures var after := RefreshLocked(c, s, current, a);
            || SavedNone(s, after)
            || (SavedOne(s, after) && c.refreshes && Good(c, a.refreshed, a.renewed, after.1.value.value))
  {
  }

  lemma AcquirerSaves(c: Config, s: State, a: Answers)
    ensures var after := Acquire(c, s, a);
            || SavedNone(s, after)
            || (SavedOne(s, after) && c.acquires && Good(c, a.acquired, a.renewed, after.1.value.value))
  {
  }

  lemma ResolveSaves(c: Config, s: State, a: Answers)
    ensures var after := Resolve(c, s, a);
            SavedNone(s, after) || (SavedOne(s, after) && ResolveTakes(c, s, a, after.1.value.value))
  {
    var s1 := Loaded(c, s);
    if s.stored.Some? {
      RefresherSaves(c, s1, s.stored.value, a);
    }
    AcquirerSaves(c, s1, a);
  }

  /** What one call saves is good, and is what it returns; a call that saves nothing leaves the record or loses it. */
  lemma OnlyGoodIsSaved(c: Config, s: State, e: Event)
    ensures var after := Apply(c, s, e);
            SavedNone(s, after) || (SavedOne(s, after) && Takes(c, s, e, after.1.value.value))
  {
    match e
    case Resolving(a) => ResolveSaves(c, s, a);
    case Refreshing(_, a) =>
      if s.stored.Some? {
        RefresherSaves(c, Loaded(c, s), s.stored.value, a);
      }
    case _ =>
  }

  /** `value` was good when the i-th call of the run took it. */
  ghost predicate TakenAt(c: Config, start: State, events: seq<Event>, i: nat, value: int) {
    i < |events| && Takes(c, Run(c, start, events[..i]), events[i], value)
  }

  /** In every run, the record in the store is the one it began with or was good when some call took it. */
  lemma {:induction false} RecordWasGood(c: Config, start: State, events: seq<Event>)
    ensures var s := Run(c, start, events);
            s.stored.Some? ==>
              s.stored == start.stored || exists i: nat :: TakenAt(c, start, events, i, s.stored.value.value)
    decreases |events|
  {
    if events != [] {
      var n: nat := |events| - 1;
      var before, s := Run(c, start, events[..n]), Run(c, start, events);
      RecordWasGood(c, start, events[..n]);
      OnlyGoodIsSaved(c, before, events[n]);
      if s.stored.Some? {
        if s.saved != before.saved {
          assert TakenAt(c, start, events, n, s.stored.value.value);
        } else if s.stored != start.stored {
          var i: nat :| TakenAt(c, start, events[..n], i, before.stored.value.value);
          assert events[..n][..i] == events[..i];
          assert TakenAt(c, start, events, i, s.stored.value.value);
        }
      }
    }
  }

  // ----- Each call in full

  /** The revision after both the counter and the record. */
  function NextRevision(s: State): nat {
    if s.stored.Some? && s.stored.value.revision > s.revision then s.stored.value.revision + 1 else s.revision + 1
  }

  /** Why a new session is not good. */
  function WhyNot(c: Config, raw: Option<int>, verdict: Verdict): Error {
    if raw.Some? && c.parse(raw.value).Some? && verdict == Rejected then FailedValidation else Propagated
  }

  /** `after` saved this session under this revision, returned it, and counts on from there. */
  predicate SavedAs(s: State, after: (State, Result<Stored>), value: int, revision: nat) {
    after.1 == Ok(Stored(value, revision)) && after.0.saved == s.saved + [revision]
    && after.0.stored == Some(Stored(value, revision))
    && after.0.revision == (if s.revision < revision then revision else s.revision)
  }

  /** `after` gave this and saved nothing. */
  predicate Unsaved(s: State, after: (State, Result<Stored>), r: Result<Stored>) {
    after.1 == r && after.0.saved == s.saved
  }

  /** A new session is saved under this revision when it is good, and refused otherwise. */
  ghost predicate SavesIfGood(c: Config, s: State, after: (State, Result<Stored>), raw: Option<int>, verdict: Verdict,
                              revision: nat)
  {
    if exists value :: Good(c, raw, verdict, value) then
      exists value :: Good(c, raw, verdict, value) && SavedAs(s, after, value, revision)
    else Unsaved(s, after, Err(WhyNot(c, raw, verdict)))
  }

  /** `resolve` returns an accepted record as it is; a rejected one it refreshes if it can; otherwise the initial
      session is saved if it is good, and one is acquired if that one is rejected. Everything else is an error. */
  lemma ResolveInFull(c: Config, s: State, a: Answers)
    requires Orderly(s)
    ensures var after := Resolve(c, s, a);
            if AsksRefresher(c, s, a) then
              SavesIfGood(c, s, after, a.refreshed, a.renewed, s.stored.value.revision + 1)
            else if StartsAnew(c, s, a) then
              if !InitialWillNotDo(c, a) then SavesIfGood(c, s, after, c.initial, a.initial, NextRevision(s))
              else if c.acquires then SavesIfGood(c, s, after, a.acquired, a.renewed, NextRevision(s))
              else Unsaved(s, after, Err(CredentialsRequired))
            else Unsaved(s, after, if a.stored == Accepted then Ok(s.stored.value) else Err(Propagated))
  {
    ResolveProceeds(c, s, a);
    if AsksRefresher(c, s, a) {
      GoodParses(c, a.refreshed, a.renewed);
    } else if StartsAnew(c, s, a) {
      StartsInFull(c, s, a);
    }
  }

  lemma StartsInFull(c: Config, s: State, a: Answers)
    requires Orderly(s) && StartsAnew(c, s, a)
    ensures var after := Resolve(c, s, a);
            if !InitialWillNotDo(c, a) then SavesIfGood(c, s, after, c.initial, a.initial, NextRevision(s))
            else if c.acquires then SavesIfGood(c, s, after, a.acquired, a.renewed, NextRevision(s))
            else Unsaved(s, after, Err(CredentialsRequired))
  {
    ResolveProceeds(c, s, a);
    GoodParses(c, c.initial, a.initial);
    GoodParses(c, a.acquired, a.renewed);
  }

  lemma GoodParses(c: Config, raw: Option<int>, verdict: Verdict)
    ensures (exists value :: Good(c, raw, verdict, value))
       <==> raw.Some? && c.parse(raw.value).Some? && verdict == Accepted
    ensures raw.Some? && c.parse(raw.value).Some? ==>
              (Good(c, raw, verdict, c.parse(raw.value).value) <==> verdict == Accepted)
  {
    if raw.Some? && c.parse(raw.value).Some? && verdict == Accepted {
      assert Good(c, raw, verdict, c.parse(raw.value).value);
    }
  }

  /** An adopted session is saved above whatever is stored, if it is good. */
  lemma AdoptInFull(c: Config, s: State, raw: int, a: Answers)
    requires Orderly(s)
    ensures SavesIfGood(c, s, Adopt(c, s, raw, a), Some(raw), a.renewed, NextRevision(s))
  {
    AdoptProceeds(c, s, raw, a);
    GoodParses(c, Some(raw), a.renewed);
  }

  /** `refresh_revision` needs a record no older than the one selected; a newer one it returns when it is accepted, and
      any other it refreshes. */
  lemma RefreshInFull(c: Config, s: State, selected: nat, a: Answers)
    requires Orderly(s)
    ensures var after := RefreshRevision(c, s, selected, a);
            if s.stored.None? then Unsaved(s, after, Err(CredentialsRequired))
            else
              var at := s.stored.value.revision;
              if at > selected && a.stored == Accepted then Unsaved(s, after, Ok(s.stored.value))
              else if at > selected && a.stored == Raised then Unsaved(s, after, Err(Propagated))
              else if at < selected then Unsaved(s, after, Err(OlderThanSelected))
              else if !c.refreshes then Unsaved(s, after, Err(NotConfigured))
              else SavesIfGood(c, s, after, a.refreshed, a.renewed, at + 1)
  {
    StepProceeds(c, s, Refreshing(selected, a));
    GoodParses(c, a.refreshed, a.renewed);
  }

  /** Calls that fall between the wait and the save take the record away exactly when one of them names no revision, or
      the record's. */
  lemma {:induction false} MeanwhileLoses(stored: Option<Stored>, calls: seq<Option<nat>>)
    ensures InvalidateAll(stored, calls)
         == if stored.Some?
               && forall i :: 0 <= i < |calls| ==> calls[i].Some? && calls[i].value != stored.value.revision
            then stored else None
    decreases |calls|
  {
    if calls != [] {
      MeanwhileLoses(Invalidated(stored, calls[0]), calls[1..]);
      assert calls == [calls[0]] + calls[1..];
    }
  }

  /** Invalidating takes away the record, or only the one of that revision; whoever finds a record on a site with
      cookies has poured them in, once. */
  lemma InvalidatesAndPours(c: Config, s: State, expected: Option<nat>, selected: nat, a: Answers)
    requires Orderly(s)
    ensures var stored := Apply(c, s, Invalidating(expected)).0.stored;
            if s.stored.Some? && expected.Some? && expected.value != s.stored.value.revision then stored == s.stored
            else stored.None?
    ensures s.stored.Some? && c.cookies ==>
              && Resolve(c, s, a).0.poured == 1 && Resolve(c, s, a).0.seeded
              && RefreshRevision(c, s, selected, a).0.poured == 1 && RefreshRevision(c, s, selected, a).0.seeded
    ensures !c.cookies ==>
              Resolve(c, s, a).0.poured == s.poured && RefreshRevision(c, s, selected, a).0.poured == s.poured
  {
  }
}
