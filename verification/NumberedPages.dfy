/**
 Numbered pagination: which page each request of a run asks for, and, against a server that answers numbered pages,
 what an iteration reads and when it has read everything.
 */
module NumberedPages {
  import opened Ordering
  import opened Pagination
  import opened PageRuns

  /** The n-th request of a run that begins with page number `first`: the same request, `n` pages on. */
  function RequestAt<T, I>(s: Strategy<T, I>, start: Address, first: int, n: nat): Address
    requires s.Numbered?
  {
    if n == 0 then start else Address(start.request[s.page := Int(first + n)], None)
  }

  /** Each page is asked for one after the other, and nothing else about the request changes. */
  lemma {:induction false} NumbersGoUp<T, I, K>(s: Strategy<T, I>, absolute: (string, string) -> string,
                                                server: Server<T>, start: Address, key: Option<I -> K>,
                                                turns: seq<Turn<T>>, first: int, n: nat)
    requires s.Numbered? && IntField(start.request, s.page) == Some(first)
    requires Follows(s, absolute, server, start, key, turns) && n < |turns|
    ensures turns[n].sent == RequestAt(s, start, first, n)
    ensures IntField(turns[n].sent.request, s.page) == Some(first + n)
    decreases n
  {
    if n > 0 {
      NumbersGoUp(s, absolute, server, start, key, turns, first, n - 1);
      assert Linked(s, absolute, key, turns, n - 1);
      assert turns[n - 1].sent.request[s.page := Int(first + n)] == start.request[s.page := Int(first + n)];
    }
  }

  /** A request without an integer page number is an error as soon as a second page is wanted. */
  lemma NotNumbered<T, I>(s: Strategy<T, I>, absolute: (string, string) -> string, turn: Turn<T>, used: int)
    requires s.Numbered? && used > 0 && IntField(turn.sent.request, s.page).None?
    ensures NextPage(s, absolute, turn, used) == Raise
  {
  }

  // ----- Against a server that answers numbered pages

  /** From number `first` on the server answers `pages`, one by one, and empty pages after them. */
  ghost predicate Numbers<T, I>(s: Strategy<T, I>, pages: seq<seq<I>>, first: int, server: Server<T>)
    requires s.Numbered?
  {
    forall i: nat, a: Address :: IntField(a.request, s.page).Some? && IntField(a.request, s.page).value >= first ==>
      server(i, a).Page? && s.items(server(i, a).result) == PageOf(pages, IntField(a.request, s.page).value - first)
  }

  /** The k-th answer calls for another page: it is not empty, not shorter than an integer size asked for, and not the
      last by its own count of pages. */
  ghost predicate CallsForMore<T, I>(s: Strategy<T, I>, pages: seq<seq<I>>, server: Server<T>, start: Address,
                                     first: int, k: nat)
    requires s.Numbered?
  {
    var page, size := PageOf(pages, k), DeclaredInt(start.request, s.size);
    var answer := server(k, RequestAt(s, start, first, k));
    && page != [] && (size.Some? ==> |page| >= size.value)
    && (s.totalPages.Some? ==> answer.Page? && first + k < s.totalPages.value(answer.result))
  }

  lemma SizeKept<T, I>(s: Strategy<T, I>, start: Address, first: int, n: nat)
    requires s.Numbered? && s.size != Some(s.page)
    ensures DeclaredInt(RequestAt(s, start, first, n).request, s.size) == DeclaredInt(start.request, s.size)
  {
  }

  /** What was read, and whether the iteration goes on, after some pages. */
  lemma NumberedStep<T, I>(s: Strategy<T, I>, absolute: (string, string) -> string, server: Server<T>, start: Address,
                           turns: seq<Turn<T>>, pages: seq<seq<I>>, first: int)
    requires s.Numbered? && s.size != Some(s.page) && Numbers(s, pages, first, server)
    requires IntField(start.request, s.page) == Some(first)
    requires Follows(s, absolute, server, start, NoKey<I>(), turns) && turns != []
    ensures s.items(turns[|turns| - 1].result) == PageOf(pages, |turns| - 1)
    ensures After(s, absolute, start, NoKey<I>(), turns)
         == if CallsForMore(s, pages, server, start, first, |turns| - 1)
            then Send(RequestAt(s, start, first, |turns|)) else Done
  {
    var n: nat := |turns| - 1;
    NumbersGoUp(s, absolute, server, start, NoKey<I>(), turns, first, n);
    SizeKept(s, start, first, n);
    NoKeyKeepsAll(s, turns);
    assert Answers(server, n, turns[n]);
    assert turns[n].sent.request[s.page := Int(first + |turns|)] == start.request[s.page := Int(first + |turns|)];
  }

  lemma FollowsPrefix<T, I>(s: Strategy<T, I>, absolute: (string, string) -> string, server: Server<T>,
                            start: Address, turns: seq<Turn<T>>, n: nat)
    requires Follows(s, absolute, server, start, NoKey<I>(), turns) && n <= |turns|
    ensures Follows(s, absolute, server, start, NoKey<I>(), turns[..n])
    ensures 0 < n < |turns| ==> After(s, absolute, start, NoKey<I>(), turns[..n]) == Send(turns[n].sent)
  {
    forall i: nat | i + 1 < n ensures Linked(s, absolute, NoKey<I>(), turns[..n], i) {
      assert Linked(s, absolute, NoKey<I>(), turns, i);
      assert turns[..n][..i + 1] == turns[..i + 1] && turns[..n][..i] == turns[..i];
    }
    forall i: nat | i < n ensures Answers(server, i, turns[..n][i]) {
      assert Answers(server, i, turns[i]);
    }
    if 0 < n < |turns| {
      assert Linked(s, absolute, NoKey<I>(), turns, n - 1);
      assert turns[..n][..n - 1] == turns[..n - 1] && turns[..n][..n] == turns[..n];
    }
  }

  /** The pages read are the first ones, and each but the last called for more. */
  lemma {:induction false} NumberedReads<T, I>(s: Strategy<T, I>, absolute: (string, string) -> string,
                                               server: Server<T>, start: Address, turns: seq<Turn<T>>,
                                               pages: seq<seq<I>>, first: int)
    requires s.Numbered? && s.size != Some(s.page) && Numbers(s, pages, first, server)
    requires IntField(start.request, s.page) == Some(first)
    requires Follows(s, absolute, server, start, NoKey<I>(), turns)
    ensures Collected(s, turns) == Joined(pages, |turns|)
    ensures forall k: nat :: k + 1 < |turns| ==> CallsForMore(s, pages, server, start, first, k)
    decreases |turns|
  {
    if turns != [] {
      var n: nat := |turns| - 1;
      FollowsPrefix(s, absolute, server, start, turns, n);
      NumberedReads(s, absolute, server, start, turns[..n], pages, first);
      NumberedStep(s, absolute, server, start, turns, pages, first);
      if n > 0 {
        NumberedStep(s, absolute, server, start, turns[..n], pages, first);
      }
    }
  }

  lemma {:induction false} JoinedGrows<I>(pages: seq<seq<I>>, m: nat, n: nat)
    requires m <= n && forall k :: 0 <= k < |pages| ==> pages[k] != []
    ensures |Joined(pages, m)| <= |Joined(pages, n)|
    ensures m < n && m < |pages| ==> |Joined(pages, m)| < |Joined(pages, n)|
    ensures |pages| <= m ==> Joined(pages, m) == Joined(pages, n)
    decreases n
  {
    if m < n {
      JoinedGrows(pages, m, n - 1);
    }
  }

  /** Reading `m` pages, of which all but the last call for more, reads all exactly when all pages but the last do. */
  lemma ReadAllIff<T, I>(s: Strategy<T, I>, pages: seq<seq<I>>, server: Server<T>, start: Address, first: int, m: nat)
    requires s.Numbered? && m > 0 && (forall k :: 0 <= k < |pages| ==> pages[k] != [])
    requires forall k: nat :: k + 1 < m ==> CallsForMore(s, pages, server, start, first, k)
    requires !CallsForMore(s, pages, server, start, first, m - 1)
    ensures Joined(pages, m) == Joined(pages, |pages|)
       <==> forall k: nat :: k + 1 < |pages| ==> CallsForMore(s, pages, server, start, first, k)
  {
    if m < |pages| {
      JoinedGrows(pages, m, |pages|);
      assert !CallsForMore(s, pages, server, start, first, m - 1);
    } else {
      JoinedGrows(pages, |pages|, m);
    }
  }

  lemma AtMostOneMore<T, I>(s: Strategy<T, I>, pages: seq<seq<I>>, server: Server<T>, start: Address, first: int,
                            m: nat)
    requires s.Numbered? && forall k: nat :: k + 1 < m ==> CallsForMore(s, pages, server, start, first, k)
    ensures m <= |pages| + 1
  {
    assert !CallsForMore(s, pages, server, start, first, |pages|);
  }

  lemma AnswersPage<T, I>(s: Strategy<T, I>, pages: seq<seq<I>>, first: int, server: Server<T>, start: Address, n: nat)
    requires s.Numbered? && Numbers(s, pages, first, server) && IntField(start.request, s.page) == Some(first)
    ensures server(n, RequestAt(s, start, first, n)).Page?
  {
    assert IntField(RequestAt(s, start, first, n).request, s.page) == Some(first + n);
  }

  lemma EndsQuietly<T>(server: Server<T>, turns: seq<Turn<T>>, next: Next, horizon: nat, requests: int, end: End)
    requires Ends(server, turns, next, false, false, horizon, requests, end) && |turns| <= horizon
    requires next != Raise && (next.Send? ==> server(|turns|, next.to).Page?)
    ensures requests == |turns| && (end == Finished <==> next == Done) && (end == Paused <==> next != Done)
    ensures end == Paused ==> |turns| == horizon
  {
  }

  lemma NumberedNext<T, I>(s: Strategy<T, I>, absolute: (string, string) -> string, server: Server<T>, start: Address,
                           turns: seq<Turn<T>>, pages: seq<seq<I>>, first: int)
    requires s.Numbered? && s.size != Some(s.page) && Numbers(s, pages, first, server)
    requires IntField(start.request, s.page) == Some(first)
    requires Follows(s, absolute, server, start, NoKey<I>(), turns)
    ensures var next := After(s, absolute, start, NoKey<I>(), turns);
            && next != Raise && (next.Send? ==> server(|turns|, next.to).Page?)
            && (next == Done <==> turns != [] && !CallsForMore(s, pages, server, start, first, |turns| - 1))
            && (|turns| > |pages| ==> next == Done)
  {
    if turns != [] {
      NumberedStep(s, absolute, server, start, turns, pages, first);
    }
    AnswersPage(s, pages, first, server, start, |turns|);
  }

  /** A numbered iteration gives what the pages it read hold, the first ones, in order. */
  lemma NumberedGives<T, I>(s: Strategy<T, I>, absolute: (string, string) -> string, server: Server<T>,
                            start: Address, horizon: nat, r: Reading<T, I>, pages: seq<seq<I>>, first: int)
    requires s.Numbered? && s.size != Some(s.page) && Numbers(s, pages, first, server)
    requires IntField(start.request, s.page) == Some(first)
    requires ItemsRun(s, absolute, server, start, None, None, NoKey<I>(), horizon, r)
    ensures r.given == Joined(pages, |r.turns|) && |r.turns| <= |pages| + 1
  {
    NumberedReads(s, absolute, server, start, r.turns, pages, first);
    AtMostOneMore(s, pages, server, start, first, |r.turns|);
    NoKeyKeepsAll(s, r.turns);
  }

  /** A numbered iteration makes no error and at most one request more than there are pages, and ends with the first
      page that does not call for another. */
  lemma NumberedTerminates<T, I>(s: Strategy<T, I>, absolute: (string, string) -> string, server: Server<T>,
                                 start: Address, horizon: nat, r: Reading<T, I>, pages: seq<seq<I>>, first: int)
    requires s.Numbered? && s.size != Some(s.page) && Numbers(s, pages, first, server)
    requires IntField(start.request, s.page) == Some(first)
    requires ItemsRun(s, absolute, server, start, None, None, NoKey<I>(), horizon, r)
    ensures r.end != Raised && r.requests == |r.turns| <= |pages| + 1
    ensures r.end == Finished <==>
              r.turns != [] && !CallsForMore(s, pages, server, start, first, |r.turns| - 1)
  {
    assert |r.turns| <= |pages| + 1 by {
      NumberedGives(s, absolute, server, start, horizon, r, pages, first);
    }
    NumberedNext(s, absolute, server, start, r.turns, pages, first);
    EndsQuietly(server, r.turns, After(s, absolute, start, NoKey<I>(), r.turns), horizon, r.requests, r.end);
  }

  /** It does end, once enough pages are asked for. */
  lemma NumberedFinishes<T, I>(s: Strategy<T, I>, absolute: (string, string) -> string, server: Server<T>,
                               start: Address, horizon: nat, r: Reading<T, I>, pages: seq<seq<I>>, first: int)
    requires s.Numbered? && s.size != Some(s.page) && Numbers(s, pages, first, server)
    requires IntField(start.request, s.page) == Some(first) && horizon > |pages|
    requires ItemsRun(s, absolute, server, start, None, None, NoKey<I>(), horizon, r)
    ensures r.end == Finished
  {
    NumberedNext(s, absolute, server, start, r.turns, pages, first);
    EndsQuietly(server, r.turns, After(s, absolute, start, NoKey<I>(), r.turns), horizon, r.requests, r.end);
  }

  /** When it ends it has read everything exactly when every page but the last called for another: none was shorter
      than an integer size, and no count of pages was too small. */
  lemma NumberedDrainsIff<T, I>(s: Strategy<T, I>, absolute: (string, string) -> string, server: Server<T>,
                                start: Address, horizon: nat, r: Reading<T, I>, pages: seq<seq<I>>, first: int)
    requires s.Numbered? && s.size != Some(s.page) && Numbers(s, pages, first, server)
    requires IntField(start.request, s.page) == Some(first) && forall k :: 0 <= k < |pages| ==> pages[k] != []
    requires ItemsRun(s, absolute, server, start, None, None, NoKey<I>(), horizon, r) && r.end == Finished
    ensures r.given == Joined(pages, |pages|)
       <==> forall k: nat :: k + 1 < |pages| ==> CallsForMore(s, pages, server, start, first, k)
  {
    NumberedGives(s, absolute, server, start, horizon, r, pages, first);
    NumberedTerminates(s, absolute, server, start, horizon, r, pages, first);
    NumberedReads(s, absolute, server, start, r.turns, pages, first);
    ReadAllIff(s, pages, server, start, first, |r.turns|);
  }

  /** In particular without a size, when the count of pages is absent or reaches the last page. */
  lemma NumberedDrains<T, I>(s: Strategy<T, I>, absolute: (string, string) -> string, server: Server<T>,
                             start: Address, horizon: nat, r: Reading<T, I>, pages: seq<seq<I>>, first: int)
    requires s.Numbered? && s.size != Some(s.page) && Numbers(s, pages, first, server)
    requires IntField(start.request, s.page) == Some(first) && forall k :: 0 <= k < |pages| ==> pages[k] != []
    requires DeclaredInt(start.request, s.size).None?
    requires forall i: nat, a: Address :: s.totalPages.Some? && server(i, a).Page? ==>
               s.totalPages.value(server(i, a).result) >= first + |pages| - 1
    requires ItemsRun(s, absolute, server, start, None, None, NoKey<I>(), horizon, r) && r.end == Finished
    ensures r.given == Joined(pages, |pages|)
  {
    NumberedDrainsIff(s, absolute, server, start, horizon, r, pages, first);
    forall k: nat | k + 1 < |pages| ensures CallsForMore(s, pages, server, start, first, k) {
      AnswersPage(s, pages, first, server, start, k);
      assert PageOf(pages, k) == pages[k];
    }
  }
}
