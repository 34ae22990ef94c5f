/**
 Pagination by what a page hands out: the token of a cursor strategy, the link of a link strategy. Each request after
 the first carries what the page before it gave, and the run ends where nothing is given.
 */
module LinkedPages {
  import opened Ordering
  import opened Pagination
  import opened PageRuns

  /** Each request after the first is the original one with the token of the page before it. */
  lemma {:induction false} TokensAreCarried<T, I, K>(s: Strategy<T, I>, absolute: (string, string) -> string,
                                                     server: Server<T>, start: Address, key: Option<I -> K>,
                                                     turns: seq<Turn<T>>, n: nat)
    requires s.Cursor? && Follows(s, absolute, server, start, key, turns) && 0 < n < |turns|
    ensures var token := s.nextCursor(turns[n - 1].result);
            token.Some? && turns[n].sent == Address(start.request[s.cursor := token.value], None)
    decreases n
  {
    assert Linked(s, absolute, key, turns, n - 1);
    if n > 1 {
      TokensAreCarried(s, absolute, server, start, key, turns, n - 1);
      var token, before := s.nextCursor(turns[n - 1].result).value, s.nextCursor(turns[n - 2].result).value;
      assert start.request[s.cursor := before][s.cursor := token] == start.request[s.cursor := token];
    }
  }

  /** A cursor run never fails of itself, and ends exactly with a page that gave nothing new or no token. */
  lemma TokensRunOut<T, I, K>(s: Strategy<T, I>, absolute: (string, string) -> string, start: Address,
                              key: Option<I -> K>, turns: seq<Turn<T>>)
    requires s.Cursor? && turns != []
    ensures var next := After(s, absolute, start, key, turns);
            && next != Raise
            && (next == Done <==> FreshAt(s, key, turns, |turns| - 1) <= 0
                                  || s.nextCursor(turns[|turns| - 1].result).None?)
  {
  }

  /** Each request after the first is the original one, sent to the link of the page before it, which is resolved
      against the address that page came from. */
  lemma {:induction false} LinksAreFollowed<T, I, K>(s: Strategy<T, I>, absolute: (string, string) -> string,
                                                     server: Server<T>, start: Address, key: Option<I -> K>,
                                                     turns: seq<Turn<T>>, n: nat)
    requires s.NextUrl? && Follows(s, absolute, server, start, key, turns) && 0 < n < |turns|
    ensures var link := s.nextUrl(turns[n - 1].result);
            && link.Some? && link.value.Text? && link.value.text != ""
            && turns[n].sent == Address(start.request, Some(absolute(link.value.text, turns[n - 1].url)))
    decreases n
  {
    assert Linked(s, absolute, key, turns, n - 1);
    if n > 1 {
      LinksAreFollowed(s, absolute, server, start, key, turns, n - 1);
    }
  }

  /** A link run ends exactly with a page that gave nothing new or no link, and fails exactly on a link that is not a
      text or is empty. */
  lemma LinksRunOut<T, I, K>(s: Strategy<T, I>, absolute: (string, string) -> string, start: Address,
                             key: Option<I -> K>, turns: seq<Turn<T>>)
    requires s.NextUrl? && turns != []
    ensures var next, link := After(s, absolute, start, key, turns), s.nextUrl(turns[|turns| - 1].result);
            var news := FreshAt(s, key, turns, |turns| - 1);
            && (next == Done <==> news <= 0 || link.None?)
            && (next == Raise <==> news > 0 && link.Some? && !(link.value.Text? && link.value.text != ""))
  {
  }

  // ----- Against a server that chains its pages

  /** The n-th request is answered with the n-th page, which hands out a token unless it is the last. */
  ghost predicate Chains<T, I>(s: Strategy<T, I>, pages: seq<seq<I>>, server: Server<T>)
    requires s.Cursor? || s.NextUrl?
  {
    forall i: nat, a: Address :: i < |pages| ==>
      && server(i, a).Page? && s.items(server(i, a).result) == pages[i]
      && (if s.Cursor? then s.nextCursor(server(i, a).result).Some? <==> i + 1 < |pages|
          else if i + 1 < |pages| then GivesLink(s.nextUrl(server(i, a).result))
          else s.nextUrl(server(i, a).result).None?)
  }

  predicate GivesLink(link: Option<Value>) {
    link.Some? && link.value.Text? && link.value.text != ""
  }

  lemma {:induction false} ChainReads<T, I>(s: Strategy<T, I>, absolute: (string, string) -> string, server: Server<T>,
                                            start: Address, turns: seq<Turn<T>>, pages: seq<seq<I>>, n: nat)
    requires (s.Cursor? || s.NextUrl?) && Chains(s, pages, server) && pages != []
    requires Follows(s, absolute, server, start, NoKey<I>(), turns) && n <= |turns|
    ensures n <= |pages| && Collected(s, turns[..n]) == Joined(pages, n)
    decreases n
  {
    if n == 0 {
      assert turns[..0] == [];
    } else {
      ChainReads(s, absolute, server, start, turns, pages, n - 1);
      assert turns[..n][..n - 1] == turns[..n - 1] && turns[..n][n - 1] == turns[n - 1];
      if n > 1 {
        assert Answers(server, n - 2, turns[n - 2]) && Linked(s, absolute, NoKey<I>(), turns, n - 2);
      }
      assert Answers(server, n - 1, turns[n - 1]);
    }
  }

  lemma ChainGoesOn<T, I>(s: Strategy<T, I>, absolute: (string, string) -> string, server: Server<T>, start: Address,
                          turns: seq<Turn<T>>, pages: seq<seq<I>>)
    requires (s.Cursor? || s.NextUrl?) && Chains(s, pages, server) && 0 < |turns| <= |pages|
    requires Follows(s, absolute, server, start, NoKey<I>(), turns) && pages[|turns| - 1] != []
    ensures var next := After(s, absolute, start, NoKey<I>(), turns);
            if |turns| < |pages| then next.Send? else next == Done
  {
    NoKeyKeepsAll(s, turns);
    assert Answers(server, |turns| - 1, turns[|turns| - 1]);
  }

  /** An iteration over a chain of non-empty pages makes one request a page, and reads them all. */
  lemma ChainDrains<T, I>(s: Strategy<T, I>, absolute: (string, string) -> string, server: Server<T>, start: Address,
                          horizon: nat, r: Reading<T, I>, pages: seq<seq<I>>)
    requires (s.Cursor? || s.NextUrl?) && Chains(s, pages, server) && pages != []
    requires forall k :: 0 <= k < |pages| ==> pages[k] != []
    requires ItemsRun(s, absolute, server, start, None, None, NoKey<I>(), horizon, r) && horizon >= |pages|
    ensures r.end == Finished && r.requests == |pages| && r.given == Joined(pages, |pages|)
  {
    var m := |r.turns|;
    ChainReads(s, absolute, server, start, r.turns, pages, m);
    assert r.turns[..m] == r.turns;
    NoKeyKeepsAll(s, r.turns);
    if m > 0 {
      ChainGoesOn(s, absolute, server, start, r.turns, pages);
    }
  }
}
