/**
 Runs of `items` and `pages`: how many requests they make, what deduplication keeps, and that nothing about
 a run is left open.
 */
module PageRuns {
  import opened Ordering
  import opened Pagination

  /** The k-th of some pages, empty after the last. */
  function PageOf<I>(pages: seq<seq<I>>, k: nat): seq<I> {
    if k < |pages| then pages[k] else []
  }

  /** The first `n` pages, joined. */
  function Joined<I>(pages: seq<seq<I>>, n: nat): seq<I> {
    if n == 0 then [] else Joined(pages, n - 1) + PageOf(pages, n - 1)
  }

  /** Every page but the last gave something new. */
  lemma {:induction false} PagesGrow<T, I, K>(s: Strategy<T, I>, absolute: (string, string) -> string,
                                              server: Server<T>,
                                              start: Address, key: Option<I -> K>, turns: seq<Turn<T>>, n: nat)
    requires Follows(s, absolute, server, start, key, turns)
    requires n < |turns| || (n == |turns| && After(s, absolute, start, key, turns).Send?)
    ensures |Firsts(Collected(s, turns[..n]), key)| >= n
    decreases n
  {
    if n > 0 {
      PagesGrow(s, absolute, server, start, key, turns, n - 1);
      if n < |turns| {
        assert Linked(s, absolute, key, turns, n - 1);
      }
      assert FreshAt(s, key, turns, n - 1) > 0;
    }
  }

  lemma {:induction false} KeysCountFirsts<I, K>(all: seq<I>, key: Option<I -> K>)
    requires key.Some?
    ensures |Firsts(all, key)| == |set i | 0 <= i < |all| :: key.value(all[i])|
    decreases |all|
  {
    if all != [] {
      var before, last := all[..|all| - 1], all[|all| - 1];
      KeysCountFirsts(before, key);
      var marks := set i | 0 <= i < |before| :: key.value(before[i]);
      assert (set i | 0 <= i < |all| :: key.value(all[i])) == marks + {key.value(last)};
    }
  }

  /** Each page before the last, and the last too if another request follows, gave something new. */
  lemma TurnsWithin<T, I, K>(s: Strategy<T, I>, absolute: (string, string) -> string, server: Server<T>,
                             start: Address, key: Option<I -> K>, turns: seq<Turn<T>>)
    requires Follows(s, absolute, server, start, key, turns)
    ensures |turns| <= |Firsts(Collected(s, turns), key)|
               + (if After(s, absolute, start, key, turns).Send? then 0 else 1)
  {
    assert turns[..|turns|] == turns;
    if After(s, absolute, start, key, turns).Send? {
      PagesGrow(s, absolute, server, start, key, turns, |turns|);
    } else if turns != [] {
      var n := |turns| - 1;
      PagesGrow(s, absolute, server, start, key, turns, n);
      CollectedGrows(s, turns, n);
      FirstsPrefix(Collected(s, turns[..n]), s.items(turns[n].result), key);
    }
  }

  lemma FirstsWithinKeys<I, K>(all: seq<I>, key: Option<I -> K>, keys: set<K>)
    requires key.Some? && forall x :: x in all ==> key.value(x) in keys
    ensures |Firsts(all, key)| <= |keys|
  {
    KeysCountFirsts(all, key);
    SubsetSize(set i | 0 <= i < |all| :: key.value(all[i]), keys);
  }

  /** With `key=`, a server whose elements have K keys is asked at most K + 1 times. */
  lemma BoundedByKeys<T, I, K>(s: Strategy<T, I>, absolute: (string, string) -> string, server: Server<T>,
                               start: Address, maxPages: Option<int>, maxItems: Option<int>,
                               key: Option<I -> K>, horizon: nat, r: Reading<T, I>, keys: set<K>)
    requires ItemsRun(s, absolute, server, start, maxPages, maxItems, key, horizon, r)
    requires key.Some? && forall x :: x in Collected(s, r.turns) ==> key.value(x) in keys
    ensures r.requests <= |keys| + 1
    ensures horizon > |keys| ==> r.end != Paused
  {
    FirstsWithinKeys(Collected(s, r.turns), key, keys);
    TurnsWithin(s, absolute, server, start, key, r.turns);
  }

  lemma CollectedGrows<T, I>(s: Strategy<T, I>, turns: seq<Turn<T>>, n: nat)
    requires n < |turns|
    ensures Collected(s, turns[..n + 1]) == Collected(s, turns[..n]) + s.items(turns[n].result)
  {
    assert turns[..n + 1][..n] == turns[..n];
  }

  lemma {:induction false} SubsetSize<K>(a: set<K>, b: set<K>)
    requires a <= b
    ensures |a| <= |b|
    decreases a
  {
    if a != {} {
      var x :| x in a;
      SubsetSize(a - {x}, b - {x});
    }
  }

  /** `max_items` bounds the requests as well as the elements. */
  lemma BoundedByItems<T, I, K>(s: Strategy<T, I>, absolute: (string, string) -> string, server: Server<T>,
                                start: Address, maxPages: Option<int>, most: int,
                                key: Option<I -> K>, horizon: nat, r: Reading<T, I>)
    requires ItemsRun(s, absolute, server, start, maxPages, Some(most), key, horizon, r) && most >= 1
    ensures |r.given| <= most && r.requests <= most
    ensures horizon >= most ==> r.end != Paused
  {
    assert r.turns[..|r.turns|] == r.turns;
    if r.turns != [] {
      PagesGrow(s, absolute, server, start, key, r.turns, |r.turns| - 1);
    }
    if After(s, absolute, start, key, r.turns).Send? {
      PagesGrow(s, absolute, server, start, key, r.turns, |r.turns|);
    }
  }

  /** What `Firsts` keeps: the elements no earlier one shares a key with, in order. */
  lemma {:induction false} FirstsAreFirst<I, K>(all: seq<I>, key: I -> K) returns (at: seq<nat>)
    ensures Picks(Firsts(all, Some(key)), all, at)
    ensures forall i: nat :: i < |all| ==> (i in at <==> NoEarlierTwin(all, key, i))
    decreases |all|
  {
    if all == [] {
      at := [];
    } else {
      var before, n := all[..|all| - 1], |all| - 1;
      at := FirstsAreFirst(before, key);
      TwinsOfPrefix(all, key, n);
      assert n !in at;
      if NoEarlierTwin(all, key, n) {
        PicksOneMore(Firsts(before, Some(key)), all, at, n);
        at := at + [n];
      }
    }
  }

  lemma TwinsOfPrefix<I, K>(all: seq<I>, key: I -> K, n: nat)
    requires n <= |all|
    ensures forall i: nat :: i < n ==> NoEarlierTwin(all[..n], key, i) == NoEarlierTwin(all, key, i)
  {
  }

  lemma PicksOneMore<I>(sub: seq<I>, all: seq<I>, at: seq<nat>, n: nat)
    requires n < |all| && Picks(sub, all[..n], at)
    ensures Picks(sub + [all[n]], all, at + [n])
  {
  }

  /** `sub` lists the elements of `all` at the ascending positions `at`. */
  ghost predicate Picks<I>(sub: seq<I>, all: seq<I>, at: seq<nat>) {
    && |at| == |sub|
    && (forall j :: 0 <= j < |at| ==> at[j] < |all| && sub[j] == all[at[j]])
    && (forall i, j :: 0 <= i < j < |at| ==> at[i] < at[j])
  }

  /** One request whatever comes back, and the first element of that page if it has one. */
  method First<T, I>(s: Strategy<T, I>, absolute: (string, string) -> string, server: Server<T>, request: Request)
    returns (first: Option<I>, requests: nat, raised: bool)
    ensures requests == 1
    ensures raised <==> server(0, Address(request, None)).Failed?
    ensures !raised ==>
      var page := s.items(server(0, Address(request, None)).result);
      first == if page == [] then None else Some(page[0])
  {
    var r := Items(s, absolute, server, request, None, Some(1), NoKey(), 2);
    ghost var start := Address(request, None);
    if r.turns != [] {
      OneTurn(s, r.turns);
      BoundedByItems(s, absolute, server, start, None, 1, NoKey(), 2, r);
      assert Answers(server, 0, r.turns[0]);
    }
    first := if r.given == [] then None else Some(r.given[0]);
    requests := r.requests;
    raised := r.end == Raised;
  }

  lemma OneTurn<T, I>(s: Strategy<T, I>, turns: seq<Turn<T>>)
    requires turns != []
    ensures Collected(s, turns[..1]) == s.items(turns[0].result)
  {
    assert turns[..1][..0] == [];
  }

  // ----- The contract of `items` leaves nothing open

  lemma {:induction false} SamePages<T, I, K>(s: Strategy<T, I>, absolute: (string, string) -> string,
                                              server: Server<T>, start: Address, key: Option<I -> K>,
                                              turns: seq<Turn<T>>, turns': seq<Turn<T>>, n: nat)
    requires Follows(s, absolute, server, start, key, turns) && Follows(s, absolute, server, start, key, turns')
    requires n <= |turns| && n <= |turns'|
    ensures turns[..n] == turns'[..n]
    decreases n
  {
    if n > 0 {
      SamePages(s, absolute, server, start, key, turns, turns', n - 1);
      NextIsLinked(s, absolute, server, start, key, turns, n - 1);
      NextIsLinked(s, absolute, server, start, key, turns', n - 1);
      assert Answers(server, n - 1, turns[n - 1]) && Answers(server, n - 1, turns'[n - 1]);
      LastOfPrefix(turns, n);
      LastOfPrefix(turns', n);
    }
  }

  lemma NextIsLinked<T, I, K>(s: Strategy<T, I>, absolute: (string, string) -> string, server: Server<T>,
                              start: Address, key: Option<I -> K>, turns: seq<Turn<T>>, n: nat)
    requires Follows(s, absolute, server, start, key, turns) && n < |turns|
    ensures After(s, absolute, start, key, turns[..n]) == Send(turns[n].sent)
  {
    if n > 0 {
      FreshOfSlice(s, key, turns, n);
      assert Linked(s, absolute, key, turns, n - 1);
    }
  }

  lemma FreshOfSlice<T, I, K>(s: Strategy<T, I>, key: Option<I -> K>, turns: seq<Turn<T>>, n: nat)
    requires 0 < n <= |turns|
    ensures FreshAt(s, key, turns[..n], n - 1) == FreshAt(s, key, turns, n - 1)
  {
    assert turns[..n][..n - 1] == turns[..n - 1] && turns[..n][..n] == turns[..n];
  }

  lemma NoEarlierEnd<T, I, K>(s: Strategy<T, I>, absolute: (string, string) -> string, server: Server<T>,
                              start: Address, maxPages: Option<int>, maxItems: Option<int>,
                              key: Option<I -> K>, horizon: nat, r: Reading<T, I>, r': Reading<T, I>)
    requires ItemsRun(s, absolute, server, start, maxPages, maxItems, key, horizon, r)
    requires ItemsRun(s, absolute, server, start, maxPages, maxItems, key, horizon, r')
    ensures |r.turns| >= |r'.turns|
  {
    var n := |r.turns|;
    assert r.turns[..n] == r.turns;
    if n < |r'.turns| {
      GoesOn(s, absolute, server, start, maxPages, maxItems, key, horizon, r'.turns, n);
      SamePages(s, absolute, server, start, key, r.turns, r'.turns, n);
    }
  }

  /** Before its last page a run was called on, answered, and not full. */
  lemma GoesOn<T, I, K>(s: Strategy<T, I>, absolute: (string, string) -> string, server: Server<T>,
                        start: Address, maxPages: Option<int>, maxItems: Option<int>,
                        key: Option<I -> K>, horizon: nat, turns: seq<Turn<T>>, n: nat)
    requires Reads(s, absolute, server, start, maxPages, maxItems, key, horizon, turns) && n < |turns|
    ensures After(s, absolute, start, key, turns[..n]) == Send(turns[n].sent) && server(n, turns[n].sent).Page?
    ensures maxItems.Some? ==> |Firsts(Collected(s, turns[..n]), key)| < maxItems.value
  {
    assert Answers(server, n, turns[n]);
    NextIsLinked(s, absolute, server, start, key, turns, n);
    FewerFirsts(s, key, turns, n, |turns| - 1);
  }

  lemma {:induction false} FewerFirsts<T, I, K>(s: Strategy<T, I>, key: Option<I -> K>, turns: seq<Turn<T>>, n: nat,
                                                m: nat)
    requires n <= m <= |turns|
    ensures |Firsts(Collected(s, turns[..n]), key)| <= |Firsts(Collected(s, turns[..m]), key)|
    decreases m
  {
    if n < m {
      FewerFirsts(s, key, turns, n, m - 1);
      CollectedGrows(s, turns, m - 1);
      FirstsPrefix(Collected(s, turns[..m - 1]), s.items(turns[m - 1].result), key);
    }
  }

  /** Against one server, the same call reads the same pages, yields the same elements and ends the same way. */
  lemma RunIsDetermined<T, I, K>(s: Strategy<T, I>, absolute: (string, string) -> string, server: Server<T>,
                                 start: Address, maxPages: Option<int>, maxItems: Option<int>,
                                 key: Option<I -> K>, horizon: nat, r: Reading<T, I>, r': Reading<T, I>)
    requires ItemsRun(s, absolute, server, start, maxPages, maxItems, key, horizon, r)
    requires ItemsRun(s, absolute, server, start, maxPages, maxItems, key, horizon, r')
    ensures r == r'
  {
    NoEarlierEnd(s, absolute, server, start, maxPages, maxItems, key, horizon, r, r');
    NoEarlierEnd(s, absolute, server, start, maxPages, maxItems, key, horizon, r', r);
    SamePages(s, absolute, server, start, key, r.turns, r'.turns, |r.turns|);
    assert r.turns[..|r.turns|] == r.turns && r'.turns[..|r.turns|] == r'.turns;
  }
}
