/**
 Offset pagination against a server that slices a list into pages: what an iteration reads, when it ends,
 and when it has read everything.
 */
module OffsetPages {
  import opened Ordering
  import opened PageRuns
  import opened Pagination

  function Rest<I>(list: seq<I>, offset: int): seq<I>
    requires 0 <= offset
  {
    if offset <= |list| then list[offset..] else []
  }

  /** At every offset the server answers a run of `list` from there, not empty before the end. */
  ghost predicate Slices<T, I>(s: Strategy<T, I>, list: seq<I>, server: Server<T>)
    requires s.Offset?
  {
    forall i: nat, a: Address :: IntField(a.request, s.offset).Some? && IntField(a.request, s.offset).value >= 0 ==>
      server(i, a).Page? && RunFrom(list, IntField(a.request, s.offset).value, s.items(server(i, a).result))
  }

  predicate RunFrom<I(==)>(list: seq<I>, offset: int, page: seq<I>)
    requires 0 <= offset
  {
    page <= Rest(list, offset) && (page == [] ==> Rest(list, offset) == [])
  }

  lemma NextOffsetAdvances<T, I>(s: Strategy<T, I>, absolute: (string, string) -> string, turn: Turn<T>, used: int)
    requires s.Offset? && NextPage(s, absolute, turn, used).Send?
    ensures IntField(turn.sent.request, s.offset).Some?
    ensures IntField(NextPage(s, absolute, turn, used).to.request, s.offset)
         == Some(IntField(turn.sent.request, s.offset).value + |s.items(turn.result)|)
  {
  }

  lemma RunsJoin<I>(list: seq<I>, offset: nat, before: seq<I>, page: seq<I>)
    requires before <= Rest(list, offset) && page <= Rest(list, offset + |before|)
    ensures before + page <= Rest(list, offset)
  {
    assert Rest(list, offset) == before + Rest(list, offset + |before|);
  }

  /** After `before`, the n-th page is asked for where `before` ends. */
  ghost predicate OnTrack<T, I>(s: Strategy<T, I>, turns: seq<Turn<T>>, list: seq<I>, offset: nat, n: nat,
                                before: seq<I>)
    requires s.Offset?
  {
    && before <= Rest(list, offset)
    && (n < |turns| ==> IntField(turns[n].sent.request, s.offset) == Some(offset + |before|))
  }

  /** Each page is asked for at the offset where the pages before it ended, so they make one run of the list. */
  lemma {:induction false} OffsetsAddUp<T, I, K>(s: Strategy<T, I>, absolute: (string, string) -> string,
                                                 server: Server<T>,
                                                 start: Address, key: Option<I -> K>, turns: seq<Turn<T>>,
                                                 list: seq<I>, offset: nat, n: nat)
    requires s.Offset? && Slices(s, list, server) && IntField(start.request, s.offset) == Some(offset)
    requires Follows(s, absolute, server, start, key, turns) && n <= |turns|
    ensures OnTrack(s, turns, list, offset, n, Collected(s, turns[..n]))
    decreases n
  {
    if n == 0 {
      assert turns[..n] == [];
    } else {
      var m := n - 1;
      OffsetsAddUp(s, absolute, server, start, key, turns, list, offset, m);
      NextRun(s, absolute, server, start, key, turns, list, offset, m, Collected(s, turns[..m]));
      CollectedGrows(s, turns, m);
    }
  }

  lemma NextRun<T, I, K>(s: Strategy<T, I>, absolute: (string, string) -> string, server: Server<T>,
                         start: Address, key: Option<I -> K>, turns: seq<Turn<T>>,
                         list: seq<I>, offset: nat, n: nat, before: seq<I>)
    requires s.Offset? && Slices(s, list, server) && Follows(s, absolute, server, start, key, turns)
    requires n < |turns| && OnTrack(s, turns, list, offset, n, before)
    ensures OnTrack(s, turns, list, offset, n + 1, before + s.items(turns[n].result))
  {
    SliceAt(s, list, server, absolute, start, key, turns, n, offset + |before|);
    RunsJoin(list, offset, before, s.items(turns[n].result));
    if n + 1 < |turns| {
      OffsetAdvances(s, absolute, server, start, key, turns, n);
    }
  }

  lemma OffsetAdvances<T, I, K>(s: Strategy<T, I>, absolute: (string, string) -> string, server: Server<T>,
                                start: Address, key: Option<I -> K>, turns: seq<Turn<T>>, n: nat)
    requires s.Offset? && Follows(s, absolute, server, start, key, turns) && n + 1 < |turns|
    ensures IntField(turns[n].sent.request, s.offset).Some?
    ensures IntField(turns[n + 1].sent.request, s.offset)
         == Some(IntField(turns[n].sent.request, s.offset).value + |s.items(turns[n].result)|)
  {
    assert Linked(s, absolute, key, turns, n);
    NextOffsetAdvances(s, absolute, turns[n], FreshAt(s, key, turns, n));
  }

  lemma SliceAt<T, I, K>(s: Strategy<T, I>, list: seq<I>, server: Server<T>, absolute: (string, string) -> string,
                         start: Address, key: Option<I -> K>, turns: seq<Turn<T>>, n: nat, at: nat)
    requires s.Offset? && Slices(s, list, server)
    requires Follows(s, absolute, server, start, key, turns) && n < |turns|
    requires IntField(turns[n].sent.request, s.offset) == Some(at)
    ensures RunFrom(list, at, s.items(turns[n].result))
  {
    assert Answers(server, n, turns[n]);
  }

  /** `total` is absent or counts the list. */
  ghost predicate TotalIs<T, I>(s: Strategy<T, I>, list: seq<I>, server: Server<T>)
    requires s.Offset?
  {
    forall i: nat, a: Address :: s.total.Some? && server(i, a).Page? ==> s.total.value(server(i, a).result) == |list|
  }

  /** Only the offset changes from one request to the next. */
  lemma {:induction false} LimitKept<T, I, K>(s: Strategy<T, I>, absolute: (string, string) -> string,
                                              server: Server<T>,
                                              start: Address, key: Option<I -> K>, turns: seq<Turn<T>>, n: nat)
    requires s.Offset? && s.limit != Some(s.offset)
    requires Follows(s, absolute, server, start, key, turns) && n < |turns|
    ensures DeclaredInt(turns[n].sent.request, s.limit) == DeclaredInt(start.request, s.limit)
    decreases n
  {
    if n > 0 {
      LimitKept(s, absolute, server, start, key, turns, n - 1);
      assert Linked(s, absolute, key, turns, n - 1);
    }
  }

  /** An offset iteration without key or bounds, after the page it read last (`at` is that page's offset). */
  ghost predicate LastPage<T, I>(s: Strategy<T, I>, absolute: (string, string) -> string, start: Address,
                                 turns: seq<Turn<T>>, list: seq<I>, offset: nat, at: nat, next: Next)
    requires s.Offset? && turns != []
  {
    var turn := turns[|turns| - 1];
    var page := s.items(turn.result);
    && IntField(turn.sent.request, s.offset) == Some(at)
    && RunFrom(list, at, page)
    && Collected(s, turns) <= Rest(list, offset) && |Collected(s, turns)| == at + |page| - offset
    && next == NextPage(s, absolute, turn, |page|) == After(s, absolute, start, NoKey<I>(), turns)
  }

  lemma AtLastPage<T, I>(s: Strategy<T, I>, absolute: (string, string) -> string, server: Server<T>,
                         start: Address, turns: seq<Turn<T>>, list: seq<I>, offset: nat) returns (at: nat, next: Next)
    requires s.Offset? && Slices(s, list, server) && IntField(start.request, s.offset) == Some(offset)
    requires Follows(s, absolute, server, start, NoKey<I>(), turns) && turns != []
    ensures LastPage(s, absolute, start, turns, list, offset, at, next)
  {
    var n := |turns| - 1;
    OffsetsAddUp(s, absolute, server, start, NoKey<I>(), turns, list, offset, n);
    OffsetsAddUp(s, absolute, server, start, NoKey<I>(), turns, list, offset, n + 1);
    CollectedGrows(s, turns, n);
    assert turns[..n + 1] == turns;
    NoKeyKeepsAll(s, turns);
    at := offset + |Collected(s, turns[..n])|;
    SliceAt(s, list, server, absolute, start, NoKey<I>(), turns, n, at);
    next := After(s, absolute, start, NoKey<I>(), turns);
  }

  /** Offset iteration never raises and never goes on for more pages than there are elements, and one more. */
  lemma OffsetTerminates<T, I>(s: Strategy<T, I>, absolute: (string, string) -> string, server: Server<T>,
                               start: Address, horizon: nat, r: Reading<T, I>, list: seq<I>, offset: nat)
    requires s.Offset? && Slices(s, list, server) && IntField(start.request, s.offset) == Some(offset)
    requires ItemsRun(s, absolute, server, start, None, None, NoKey<I>(), horizon, r)
    ensures r.end != Raised && r.requests == |r.turns| <= |Rest(list, offset)| + 1
    ensures horizon > |Rest(list, offset)| ==> r.end == Finished
    ensures r.end == Finished ==> r.turns != [] && After(s, absolute, start, NoKey<I>(), r.turns) == Done
    ensures r.given == Collected(s, r.turns) <= Rest(list, offset)
  {
    NoKeyKeepsAll(s, r.turns);
    TurnsWithin(s, absolute, server, start, NoKey<I>(), r.turns);
    OffsetAsksOn(s, absolute, server, start, r.turns, list, offset);
  }

  /** The step after a page is never an error, and a request that follows is answered. */
  lemma OffsetAsksOn<T, I>(s: Strategy<T, I>, absolute: (string, string) -> string, server: Server<T>,
                           start: Address, turns: seq<Turn<T>>, list: seq<I>, offset: nat)
    requires s.Offset? && Slices(s, list, server) && IntField(start.request, s.offset) == Some(offset)
    requires Follows(s, absolute, server, start, NoKey<I>(), turns)
    ensures Collected(s, turns) <= Rest(list, offset)
    ensures var next := After(s, absolute, start, NoKey<I>(), turns);
            !next.Raise? && (next.Send? ==> server(|turns|, next.to).Page?)
  {
    if turns != [] {
      var at, next := AtLastPage(s, absolute, server, start, turns, list, offset);
      var turn := turns[|turns| - 1];
      if next.Send? {
        NextOffsetAdvances(s, absolute, turn, |s.items(turn.result)|);
      }
    }
  }

  /** Why an offset iteration stops after a page: the list has ended, or the page is short of an integer limit. */
  lemma StopsForAReason<T, I>(s: Strategy<T, I>, absolute: (string, string) -> string, turn: Turn<T>, list: seq<I>,
                              at: nat)
    requires s.Offset? && IntField(turn.sent.request, s.offset) == Some(at) && RunFrom(list, at, s.items(turn.result))
    requires s.total.Some? ==> s.total.value(turn.result) == |list|
    requires NextPage(s, absolute, turn, |s.items(turn.result)|) == Done
    ensures var page := s.items(turn.result); var limit := DeclaredInt(turn.sent.request, s.limit);
            at + |page| >= |list| || (limit.Some? && |page| < limit.value)
  {
  }

  /** The same at the end of a run, with what the run has read by then. */
  lemma EndsForAReason<T, I>(s: Strategy<T, I>, absolute: (string, string) -> string, server: Server<T>,
                             start: Address, turns: seq<Turn<T>>, list: seq<I>, offset: nat) returns (at: nat)
    requires s.Offset? && Slices(s, list, server) && IntField(start.request, s.offset) == Some(offset)
    requires s.limit != Some(s.offset) && TotalIs(s, list, server)
    requires Follows(s, absolute, server, start, NoKey<I>(), turns) && turns != []
    requires After(s, absolute, start, NoKey<I>(), turns) == Done
    ensures var last := turns[|turns| - 1]; var page := s.items(last.result);
            var limit := DeclaredInt(start.request, s.limit);
            && IntField(last.sent.request, s.offset) == Some(at) && Answers(server, |turns| - 1, last)
            && (at + |page| >= |list| || (limit.Some? && |page| < limit.value))
            && (Collected(s, turns) == Rest(list, offset) <==> at + |page| >= |list|)
  {
    var n, next := |turns| - 1, Done;
    at, next := AtLastPage(s, absolute, server, start, turns, list, offset);
    LimitKept(s, absolute, server, start, NoKey<I>(), turns, n);
    assert Answers(server, n, turns[n]);
    StopsForAReason(s, absolute, turns[n], list, at);
  }

  /** Without an integer limit, an iteration that ends has read the whole list from the start offset. */
  lemma OffsetDrains<T, I>(s: Strategy<T, I>, absolute: (string, string) -> string, server: Server<T>,
                           start: Address, horizon: nat, r: Reading<T, I>, list: seq<I>, offset: nat)
    requires s.Offset? && Slices(s, list, server) && IntField(start.request, s.offset) == Some(offset)
    requires s.limit != Some(s.offset) && DeclaredInt(start.request, s.limit).None? && TotalIs(s, list, server)
    requires ItemsRun(s, absolute, server, start, None, None, NoKey<I>(), horizon, r)
    ensures r.end == Finished ==> r.given == Rest(list, offset)
    ensures horizon > |Rest(list, offset)| ==> r.end == Finished
  {
    OffsetTerminates(s, absolute, server, start, horizon, r, list, offset);
    if r.end == Finished {
      var at := EndsForAReason(s, absolute, server, start, r.turns, list, offset);
    }
  }

  /** An offset run ends exactly with a page that gave nothing new, that reaches the total it states, or that is shorter
      than an integer limit; otherwise the same request follows, moved on by the length of the page. */
  lemma OffsetsRunOut<T, I, K>(s: Strategy<T, I>, absolute: (string, string) -> string, start: Address,
                               key: Option<I -> K>, turns: seq<Turn<T>>)
    requires s.Offset? && turns != []
    ensures var last, next := turns[|turns| - 1], After(s, absolute, start, key, turns);
            var at, count := IntField(last.sent.request, s.offset), |s.items(last.result)|;
            var limit := DeclaredInt(last.sent.request, s.limit);
            next == if FreshAt(s, key, turns, |turns| - 1) <= 0 then Done
                    else if at.None? then Raise
                    else if (s.total.Some? && s.total.value(last.result) <= at.value + count)
                            || (limit.Some? && limit.value > count) then Done
                    else Send(Address(last.sent.request[s.offset := Int(at.value + count)], None))
  {
  }

  // ----- With an integer limit

  /** From this request on, each page the server gives has at least `limit` elements, up to the one that reaches
      the end of the list. */
  ghost predicate PagesFill<T, I>(s: Strategy<T, I>, list: seq<I>, server: Server<T>, limit: int, i: nat, a: Address)
    requires s.Offset? && Slices(s, list, server)
    requires IntField(a.request, s.offset).Some? && IntField(a.request, s.offset).value >= 0
    decreases |Rest(list, IntField(a.request, s.offset).value)|
  {
    var at, page := IntField(a.request, s.offset).value, s.items(server(i, a).result);
    assert RunFrom(list, at, page);
    at + |page| >= |list|
    || (|page| >= limit
        && PagesFill(s, list, server, limit, i + 1, Address(a.request[s.offset := Int(at + |page|)], None)))
  }

  lemma FillUnfolds<T, I>(s: Strategy<T, I>, list: seq<I>, server: Server<T>, limit: int, i: nat, a: Address, at: nat,
                          page: seq<I>)
    requires s.Offset? && Slices(s, list, server) && IntField(a.request, s.offset) == Some(at)
    requires s.items(server(i, a).result) == page && RunFrom(list, at, page)
    ensures IntField(a.request[s.offset := Int(at + |page|)], s.offset) == Some(at + |page|)
    ensures PagesFill(s, list, server, limit, i, a) <==>
              at + |page| >= |list|
              || (|page| >= limit
                  && PagesFill(s, list, server, limit, i + 1, Address(a.request[s.offset := Int(at + |page|)], None)))
  {
  }

  lemma FillsAtTheEnd<T, I>(s: Strategy<T, I>, list: seq<I>, server: Server<T>, limit: int, i: nat, a: Address, at: nat)
    requires s.Offset? && Slices(s, list, server) && IntField(a.request, s.offset) == Some(at) && at >= |list|
    ensures PagesFill(s, list, server, limit, i, a)
  {
  }

  /** A page that another request follows was long enough, so the question passes to the next page. */
  lemma FillPassesOn<T, I>(s: Strategy<T, I>, absolute: (string, string) -> string, server: Server<T>,
                           start: Address, turns: seq<Turn<T>>, list: seq<I>, limit: int, n: nat, at: nat)
    requires s.Offset? && Slices(s, list, server) && TotalIs(s, list, server)
    requires s.limit != Some(s.offset) && DeclaredInt(start.request, s.limit) == Some(limit)
    requires Follows(s, absolute, server, start, NoKey<I>(), turns) && n + 1 < |turns|
    requires IntField(turns[n].sent.request, s.offset) == Some(at)
    ensures IntField(turns[n + 1].sent.request, s.offset) == Some(at + |s.items(turns[n].result)|)
    ensures PagesFill(s, list, server, limit, n, turns[n].sent)
          == PagesFill(s, list, server, limit, n + 1, turns[n + 1].sent)
  {
    var page, next := s.items(turns[n].result), turns[n + 1].sent;
    var moved := Address(turns[n].sent.request[s.offset := Int(at + |page|)], None);
    assert next == moved && |page| >= limit by {
      LimitKept(s, absolute, server, start, NoKey<I>(), turns, n);
      FollowedPage(s, absolute, server, start, turns, n);
    }
    assert server(n, turns[n].sent) == Page(turns[n].result, turns[n].url) by {
      assert Answers(server, n, turns[n]);
    }
    FillUnfolds(s, list, server, limit, n, turns[n].sent, at, page);
    if at + |page| >= |list| {
      FillsAtTheEnd(s, list, server, limit, n + 1, next, at + |page|);
    }
  }

  lemma FollowedPage<T, I>(s: Strategy<T, I>, absolute: (string, string) -> string, server: Server<T>,
                           start: Address, turns: seq<Turn<T>>, n: nat)
    requires s.Offset? && Follows(s, absolute, server, start, NoKey<I>(), turns) && n + 1 < |turns|
    ensures var request := turns[n].sent.request; var page := s.items(turns[n].result);
            && IntField(request, s.offset).Some?
            && turns[n + 1].sent == Address(request[s.offset := Int(IntField(request, s.offset).value + |page|)], None)
            && (DeclaredInt(request, s.limit).Some? ==> |page| >= DeclaredInt(request, s.limit).value)
  {
    assert Linked(s, absolute, NoKey<I>(), turns, n);
  }

  lemma {:induction false} FillDecidedAt<T, I>(s: Strategy<T, I>, absolute: (string, string) -> string,
                                               server: Server<T>,
                                               start: Address, turns: seq<Turn<T>>, list: seq<I>, offset: nat,
                                               limit: int, n: nat)
    requires s.Offset? && Slices(s, list, server) && TotalIs(s, list, server)
    requires IntField(start.request, s.offset) == Some(offset)
    requires s.limit != Some(s.offset) && DeclaredInt(start.request, s.limit) == Some(limit)
    requires Follows(s, absolute, server, start, NoKey<I>(), turns) && n < |turns|
    ensures IntField(turns[n].sent.request, s.offset).Some? && IntField(turns[n].sent.request, s.offset).value >= 0
    ensures PagesFill(s, list, server, limit, 0, start) == PagesFill(s, list, server, limit, n, turns[n].sent)
    decreases n
  {
    if n > 0 {
      FillDecidedAt(s, absolute, server, start, turns, list, offset, limit, n - 1);
      FillPassesOn(s, absolute, server, start, turns, list, limit, n - 1,
                   IntField(turns[n - 1].sent.request, s.offset).value);
    }
  }

  /** With an integer limit, an iteration reads the whole list exactly when the server's pages along the way fill
      the limit, whatever their lengths: the first that does not ends it. */
  lemma OffsetWithLimitIff<T, I>(s: Strategy<T, I>, absolute: (string, string) -> string, server: Server<T>,
                                 start: Address, horizon: nat, r: Reading<T, I>, list: seq<I>, offset: nat, limit: int)
    requires s.Offset? && Slices(s, list, server) && IntField(start.request, s.offset) == Some(offset)
    requires s.limit != Some(s.offset) && DeclaredInt(start.request, s.limit) == Some(limit) && TotalIs(s, list, server)
    requires ItemsRun(s, absolute, server, start, None, None, NoKey<I>(), horizon, r)
    ensures horizon > |Rest(list, offset)| ==> r.end == Finished
    ensures r.end == Finished ==> (r.given == Rest(list, offset) <==> PagesFill(s, list, server, limit, 0, start))
  {
    OffsetTerminates(s, absolute, server, start, horizon, r, list, offset);
    if r.end == Finished {
      var at := EndsForAReason(s, absolute, server, start, r.turns, list, offset);
      FillDecidedAt(s, absolute, server, start, r.turns, list, offset, limit, |r.turns| - 1);
    }
  }

  /** The server's pages hold `most` elements, fewer only at the end of the list. */
  ghost predicate Capped<T, I>(s: Strategy<T, I>, list: seq<I>, server: Server<T>, most: nat)
    requires s.Offset?
  {
    forall i: nat, a: Address :: IntField(a.request, s.offset).Some? && IntField(a.request, s.offset).value >= 0 ==>
      && server(i, a).Page?
      && s.items(server(i, a).result) == Cut(Rest(list, IntField(a.request, s.offset).value), Some(most))
  }

  lemma CappedSlices<T, I>(s: Strategy<T, I>, list: seq<I>, server: Server<T>, most: nat)
    requires s.Offset? && most >= 1 && Capped(s, list, server, most)
    ensures Slices(s, list, server)
  {
  }

  lemma {:induction false} CappedFill<T, I>(s: Strategy<T, I>, list: seq<I>, server: Server<T>, most: nat,
                                            limit: int, i: nat, a: Address, at: nat)
    requires s.Offset? && most >= 1 && Capped(s, list, server, most) && Slices(s, list, server)
    requires IntField(a.request, s.offset) == Some(at)
    ensures PagesFill(s, list, server, limit, i, a) <==> limit <= most || |Rest(list, at)| <= most
    decreases |Rest(list, at)|
  {
    var page := s.items(server(i, a).result);
    assert page == Cut(Rest(list, at), Some(most));
    if limit <= most && at + |page| < |list| {
      CappedFill(s, list, server, most, limit, i + 1,
                 Address(a.request[s.offset := Int(at + |page|)], None), at + |page|);
    }
  }

  /** For a server with one page length, that is: pages as long as the limit, or one page for everything. */
  lemma CappedOffsetIff<T, I>(s: Strategy<T, I>, absolute: (string, string) -> string, server: Server<T>,
                              start: Address, horizon: nat, r: Reading<T, I>, list: seq<I>, offset: nat,
                              limit: int, most: nat)
    requires s.Offset? && most >= 1 && Capped(s, list, server, most) && TotalIs(s, list, server)
    requires IntField(start.request, s.offset) == Some(offset)
    requires s.limit != Some(s.offset) && DeclaredInt(start.request, s.limit) == Some(limit)
    requires ItemsRun(s, absolute, server, start, None, None, NoKey<I>(), horizon, r)
    ensures horizon > |Rest(list, offset)| ==> r.end == Finished
    ensures r.end == Finished ==> (r.given == Rest(list, offset) <==> limit <= most || |Rest(list, offset)| <= most)
  {
    CappedSlices(s, list, server, most);
    OffsetWithLimitIff(s, absolute, server, start, horizon, r, list, offset, limit);
    CappedFill(s, list, server, most, limit, 0, start, offset);
  }

  // ----- A server that gives one short page

  const FOUR := [1, 2, 3, 4]

  /** Two elements at a time, but one at offset 2. */
  function Uneven(at: Option<int>): seq<int> {
    if at.None? || at.value < 0 then []
    else Cut(Rest(FOUR, at.value), Some(if at.value == 2 then 1 else 2))
  }

  const UNEVEN_SERVER: Server<seq<int>> := (i: nat, a: Address) => Page(Uneven(IntField(a.request, "offset")), "")
  const TWO_A_PAGE: Strategy<seq<int>, int> := Offset((page: seq<int>) => page, "offset", Some("limit"), None)
  const FROM_THE_START := Address(map["offset" := Int(0), "limit" := Int(2)], None)

  /** Asked for two elements a page, this server answers one page of one, and its last element is never read. */
  lemma ShortPageLosesTheRest(absolute: (string, string) -> string, horizon: nat, r: Reading<seq<int>, int>)
    requires horizon > 4
    requires ItemsRun(TWO_A_PAGE, absolute, UNEVEN_SERVER, FROM_THE_START, None, None, NoKey<int>(), horizon, r)
    ensures r.end == Finished && r.given == [1, 2, 3]
  {
    UnevenSlices();
    OffsetTerminates(TWO_A_PAGE, absolute, UNEVEN_SERVER, FROM_THE_START, horizon, r, FOUR, 0);
    UnevenTurns(absolute, r.turns);
  }

  /** What the n-th request of such a run gets. */
  lemma UnevenPage(absolute: (string, string) -> string, turns: seq<Turn<seq<int>>>, n: nat, at: nat)
    requires Follows(TWO_A_PAGE, absolute, UNEVEN_SERVER, FROM_THE_START, NoKey<int>(), turns) && n < |turns|
    requires IntField(turns[n].sent.request, "offset") == Some(at)
    ensures turns[n].result == Uneven(Some(at))
    ensures DeclaredInt(turns[n].sent.request, Some("limit")) == Some(2)
  {
    assert Answers(UNEVEN_SERVER, n, turns[n]);
    LimitKept(TWO_A_PAGE, absolute, UNEVEN_SERVER, FROM_THE_START, NoKey<int>(), turns, n);
  }

  /** After two elements one more request, and after one none. */
  lemma UnevenAsksTwice(absolute: (string, string) -> string, turns: seq<Turn<seq<int>>>)
    requires Follows(TWO_A_PAGE, absolute, UNEVEN_SERVER, FROM_THE_START, NoKey<int>(), turns)
    requires turns != [] && After(TWO_A_PAGE, absolute, FROM_THE_START, NoKey<int>(), turns) == Done
    ensures |turns| == 2 && turns[0].result == [1, 2] && turns[1].result == [3]
  {
    assert Uneven(Some(0)) == [1, 2] && Uneven(Some(2)) == [3];
    UnevenPage(absolute, turns, 0, 0);
    if |turns| == 1 {
      UnevenSlices();
      var at := EndsForAReason(TWO_A_PAGE, absolute, UNEVEN_SERVER, FROM_THE_START, turns, FOUR, 0);
      assert false;
    }
    FollowedPage(TWO_A_PAGE, absolute, UNEVEN_SERVER, FROM_THE_START, turns, 0);
    UnevenPage(absolute, turns, 1, 2);
    if |turns| > 2 {
      FollowedPage(TWO_A_PAGE, absolute, UNEVEN_SERVER, FROM_THE_START, turns, 1);
      assert false;
    }
  }

  lemma UnevenTurns(absolute: (string, string) -> string, turns: seq<Turn<seq<int>>>)
    requires Follows(TWO_A_PAGE, absolute, UNEVEN_SERVER, FROM_THE_START, NoKey<int>(), turns)
    requires turns != [] && After(TWO_A_PAGE, absolute, FROM_THE_START, NoKey<int>(), turns) == Done
    ensures Collected(TWO_A_PAGE, turns) == [1, 2, 3]
  {
    UnevenAsksTwice(absolute, turns);
    assert turns[..1] == [turns[0]] && turns[..1][..0] == [];
    assert Collected(TWO_A_PAGE, turns[..1]) == [] + [1, 2];
  }

  lemma UnevenSlices()
    ensures Slices(TWO_A_PAGE, FOUR, UNEVEN_SERVER)
  {
  }
}
