/**
 Pagination: a strategy says what the request after a page looks like, and the iteration follows it against
 a server that may answer anything. Iteration is lazy, so a run is observed for any number of pages
 (`horizon`); what holds for every horizon holds for every prefix a caller may consume.
 */
module Pagination {
  import opened Ordering

  /** What a request field or a token may hold; `Other` covers booleans, `None` and the rest. */
  datatype Value = Int(n: int) | Text(text: string) | Other(id: int)

  type Request = map<string, Value>

  datatype Strategy<!T, !I> =
    | Numbered(items: T -> seq<I>, page: string, size: Option<string>, totalPages: Option<T -> int>)
    | Offset(items: T -> seq<I>, offset: string, limit: Option<string>, total: Option<T -> int>)
    | Cursor(items: T -> seq<I>, cursor: string, nextCursor: T -> Option<Value>)
    | NextUrl(items: T -> seq<I>, nextUrl: T -> Option<Value>)

  datatype Changes = Stop | Put(name: string, value: Value) | GoTo(url: string) | PlanError

  /** A request value, and the link it is sent to instead of the operation's own address. */
  datatype Address = Address(request: Request, url: Option<string>)

  datatype Reply<T> = Page(result: T, url: string) | Failed

  /** The answer to the i-th request of a run: any server, stateful or not. */
  type Server<!T> = (nat, Address) -> Reply<T>

  /** A page that was read: where it was asked for, what came back, and from where. */
  datatype Turn<T> = Turn(sent: Address, result: T, url: string)

  datatype Next = Done | Send(to: Address) | Raise

  /** `Paused` is a caller that asks for no further page. */
  datatype End = Finished | Raised | Paused

  datatype Reading<T, I> = Reading(turns: seq<Turn<T>>, given: seq<I>, requests: nat, end: End)

  function IntField(request: Request, name: string): Option<int> {
    if name in request && request[name].Int? then Some(request[name].n) else None
  }

  /** An optional size field: absent, or not an integer, counts for nothing. */
  function DeclaredInt(request: Request, name: Option<string>): Option<int> {
    if name.None? then None else IntField(request, name.value)
  }

  function NextNumbered<T, I>(s: Strategy<T, I>, request: Request, result: T): Changes
    requires s.Numbered?
  {
    var current := IntField(request, s.page);
    var size := DeclaredInt(request, s.size);
    if current.None? then PlanError
    else if s.totalPages.Some? && current.value >= s.totalPages.value(result) then Stop
    else if size.Some? && |s.items(result)| < size.value then Stop
    else Put(s.page, Int(current.value + 1))
  }

  function NextOffset<T, I>(s: Strategy<T, I>, request: Request, result: T): Changes
    requires s.Offset?
  {
    var current := IntField(request, s.offset);
    var count := |s.items(result)|;
    var limit := DeclaredInt(request, s.limit);
    if current.None? then PlanError
    else if s.total.Some? && current.value + count >= s.total.value(result) then Stop
    else if limit.Some? && count < limit.value then Stop
    else Put(s.offset, Int(current.value + count))
  }

  function NextCursor<T, I>(s: Strategy<T, I>, result: T): Changes
    requires s.Cursor?
  {
    var token := s.nextCursor(result);
    if token.None? then Stop else Put(s.cursor, token.value)
  }

  function NextLink<T, I>(s: Strategy<T, I>, result: T): Changes
    requires s.NextUrl?
  {
    var link := s.nextUrl(result);
    if link.None? then Stop
    else if link.value.Text? && link.value.text != "" then GoTo(link.value.text)
    else PlanError
  }

  function NextChanges<T, I>(s: Strategy<T, I>, request: Request, result: T, used: int): Changes {
    if used <= 0 then Stop
    else if s.Numbered? then NextNumbered(s, request, result)
    else if s.Offset? then NextOffset(s, request, result)
    else if s.Cursor? then NextCursor(s, result)
    else NextLink(s, result)
  }

  /** A field strategy evolves the request; a link strategy keeps it and resolves the link against the URL of
      the page that gave it. `absolute` stands for that resolution. */
  function NextPage<T, I>(s: Strategy<T, I>, absolute: (string, string) -> string, turn: Turn<T>, used: int): Next {
    match NextChanges(s, turn.sent.request, turn.result, used)
    case Stop => Done
    case PlanError => Raise
    case Put(name, value) => Send(Address(turn.sent.request[name := value], None))
    case GoTo(url) => Send(Address(turn.sent.request, Some(absolute(url, turn.url))))
  }

  // ----- What a run collects

  /** All elements of the pages read, in order. */
  function Collected<T, I>(s: Strategy<T, I>, turns: seq<Turn<T>>): seq<I> {
    if turns == [] then [] else Collected(s, turns[..|turns| - 1]) + s.items(turns[|turns| - 1].result)
  }

  ghost predicate NoEarlierTwin<I, K>(all: seq<I>, key: I -> K, i: nat)
    requires i < |all|
  {
    forall h :: 0 <= h < i ==> key(all[h]) != key(all[i])
  }

  /** An element stays unless an earlier one has its key; without a key all stay. */
  ghost function Firsts<I, K>(all: seq<I>, key: Option<I -> K>): seq<I> {
    if key.None? then all
    else if all == [] then []
    else
      var before, last := all[..|all| - 1], all[|all| - 1];
      if NoEarlierTwin(all, key.value, |before|) then Firsts(before, key) + [last] else Firsts(before, key)
  }

  function Cut<I>(list: seq<I>, most: Option<int>): seq<I> {
    if most.Some? && 0 <= most.value <= |list| then list[..most.value] else list
  }

  /** How many elements of the i-th page were new. */
  ghost function FreshAt<T, I, K>(s: Strategy<T, I>, key: Option<I -> K>, turns: seq<Turn<T>>, i: nat): int
    requires i < |turns|
  {
    |Firsts(Collected(s, turns[..i + 1]), key)| - |Firsts(Collected(s, turns[..i]), key)|
  }

  /** The (i+1)-th page was asked for where the i-th called for it. */
  ghost predicate Linked<T, I, K>(s: Strategy<T, I>, absolute: (string, string) -> string,
                                  key: Option<I -> K>, turns: seq<Turn<T>>, i: nat)
    requires i + 1 < |turns|
  {
    NextPage(s, absolute, turns[i], FreshAt(s, key, turns, i)) == Send(turns[i + 1].sent)
  }

  ghost predicate Answers<T>(server: Server<T>, i: nat, turn: Turn<T>) {
    server(i, turn.sent) == Page(turn.result, turn.url)
  }

  /** Every page answers the request that the page before it called for. */
  ghost predicate Follows<T, I, K>(s: Strategy<T, I>, absolute: (string, string) -> string, server: Server<T>,
                                   start: Address, key: Option<I -> K>, turns: seq<Turn<T>>)
  {
    && (turns != [] ==> turns[0].sent == start)
    && (forall i: nat {:trigger Answers(server, i, turns[i])} :: i < |turns| ==> Answers(server, i, turns[i]))
    && (forall i: nat {:trigger Linked(s, absolute, key, turns, i)} ::
          i + 1 < |turns| ==> Linked(s, absolute, key, turns, i))
  }

  /** The step after the last page of a run: at first, the request the arguments describe. */
  ghost function After<T, I, K>(s: Strategy<T, I>, absolute: (string, string) -> string, start: Address,
                                key: Option<I -> K>, turns: seq<Turn<T>>): Next
  {
    if turns == [] then Send(start)
    else NextPage(s, absolute, turns[|turns| - 1], FreshAt(s, key, turns, |turns| - 1))
  }

  predicate Allowed(most: Option<int>) {
    most.Some? ==> most.value >= 1
  }

  /** The pages of a run: each one called for, none beyond a bound, none after the last element wanted. */
  ghost predicate Reads<T, I, K>(s: Strategy<T, I>, absolute: (string, string) -> string, server: Server<T>,
                                 start: Address, maxPages: Option<int>, maxItems: Option<int>,
                                 key: Option<I -> K>, horizon: nat, turns: seq<Turn<T>>)
  {
    && Follows(s, absolute, server, start, key, turns)
    && |turns| <= horizon && (maxPages.Some? ==> |turns| <= maxPages.value)
    && (maxItems.Some? && turns != [] ==> |Firsts(Collected(s, turns[..|turns| - 1]), key)| < maxItems.value)
  }

  /** How a run ends after `turns`, when `next` follows them: `full` says that no element is wanted any
      more, `last` that no page is. */
  ghost predicate Ends<T>(server: Server<T>, turns: seq<Turn<T>>, next: Next, full: bool, last: bool, horizon: nat,
                          requests: int, end: End)
  {
    var asking := next.Send? && !full && !last && |turns| < horizon;
    && (asking ==> server(|turns|, next.to) == Failed)
    && requests == |turns| + (if asking then 1 else 0)
    && end == (if full then Finished
               else if asking || next.Raise? then Raised
               else if next.Done? || last then Finished
               else Paused)
  }

  /** What `items` promises of a run: which requests it makes, what it yields, and why it ends. */
  ghost predicate ItemsRun<T, I, K>(s: Strategy<T, I>, absolute: (string, string) -> string, server: Server<T>,
                                    start: Address, maxPages: Option<int>, maxItems: Option<int>,
                                    key: Option<I -> K>, horizon: nat, r: Reading<T, I>)
  {
    var all := Firsts(Collected(s, r.turns), key);
    && Reads(s, absolute, server, start, maxPages, maxItems, key, horizon, r.turns)
    && r.given == Cut(all, maxItems)
    && Ends(server, r.turns, After(s, absolute, start, key, r.turns), maxItems.Some? && |all| >= maxItems.value,
            maxPages.Some? && |r.turns| == maxPages.value, horizon, r.requests, r.end)
  }

  lemma {:induction false} FirstsPrefix<I, K>(a: seq<I>, b: seq<I>, key: Option<I -> K>)
    ensures Firsts(a, key) <= Firsts(a + b, key)
    decreases |b|
  {
    if b == [] {
      assert a + b == a;
    } else if key.Some? {
      var b' := b[..|b| - 1];
      assert (a + b)[..|a + b| - 1] == a + b';
      FirstsPrefix(a, b', key);
    }
  }

  /** A page that answers the request the run called for extends the run. */
  lemma OneMorePage<T, I, K>(s: Strategy<T, I>, absolute: (string, string) -> string, server: Server<T>,
                             start: Address, key: Option<I -> K>, turns: seq<Turn<T>>, turn: Turn<T>)
    requires Follows(s, absolute, server, start, key, turns)
    requires After(s, absolute, start, key, turns) == Send(turn.sent)
    requires Answers(server, |turns|, turn)
    ensures Follows(s, absolute, server, start, key, turns + [turn])
  {
    var more := turns + [turn];
    forall i: nat | i + 1 < |more| ensures Linked(s, absolute, key, more, i) {
      LinkedPrefix(s, absolute, key, turns, turn, i);
      if i + 1 < |turns| {
        assert Linked(s, absolute, key, turns, i);
      }
    }
  }

  lemma LinkedPrefix<T, I, K>(s: Strategy<T, I>, absolute: (string, string) -> string,
                              key: Option<I -> K>, turns: seq<Turn<T>>, turn: Turn<T>, i: nat)
    requires i < |turns|
    ensures i + 1 < |turns| ==> Linked(s, absolute, key, turns + [turn], i) == Linked(s, absolute, key, turns, i)
    ensures i + 1 == |turns| ==> forall start ::
      Linked(s, absolute, key, turns + [turn], i) == (After(s, absolute, start, key, turns) == Send(turn.sent))
  {
    FreshOfPrefix(s, key, turns, turn, i);
  }

  lemma AfterPage<T, I, K>(s: Strategy<T, I>, absolute: (string, string) -> string,
                           start: Address, key: Option<I -> K>, turns: seq<Turn<T>>, turn: Turn<T>, used: int)
    requires used == |Firsts(Collected(s, turns) + s.items(turn.result), key)| - |Firsts(Collected(s, turns), key)|
    ensures After(s, absolute, start, key, turns + [turn]) == NextPage(s, absolute, turn, used)
  {
    var more := turns + [turn];
    assert more[..|turns|] == turns && more[..|turns| + 1] == more;
    CollectedSnoc(s, turns, turn);
  }

  lemma CollectedSnoc<T, I>(s: Strategy<T, I>, turns: seq<Turn<T>>, turn: Turn<T>)
    ensures Collected(s, turns + [turn]) == Collected(s, turns) + s.items(turn.result)
  {
    assert (turns + [turn])[..|turns|] == turns;
  }

  lemma FreshOfPrefix<T, I, K>(s: Strategy<T, I>, key: Option<I -> K>, turns: seq<Turn<T>>, turn: Turn<T>, i: nat)
    requires i < |turns|
    ensures FreshAt(s, key, turns + [turn], i) == FreshAt(s, key, turns, i)
  {
    assert (turns + [turn])[..i + 1] == turns[..i + 1] && (turns + [turn])[..i] == turns[..i];
  }

  /** The bounds hold for one more page while neither was reached. */
  lemma OneMoreRead<T, I, K>(s: Strategy<T, I>, absolute: (string, string) -> string, server: Server<T>,
                             start: Address, maxPages: Option<int>, maxItems: Option<int>,
                             key: Option<I -> K>, horizon: nat, turns: seq<Turn<T>>, turn: Turn<T>)
    requires Reads(s, absolute, server, start, maxPages, maxItems, key, horizon, turns)
    requires |turns| < horizon && (maxPages.Some? ==> |turns| < maxPages.value)
    requires maxItems.Some? ==> |Firsts(Collected(s, turns), key)| < maxItems.value
    requires After(s, absolute, start, key, turns) == Send(turn.sent) && Answers(server, |turns|, turn)
    ensures Reads(s, absolute, server, start, maxPages, maxItems, key, horizon, turns + [turn])
  {
    OneMorePage(s, absolute, server, start, key, turns, turn);
    assert (turns + [turn])[..|turns + [turn]| - 1] == turns;
  }

  /** The set of marks `items` keeps. */
  ghost predicate Marks<I, K>(seen: set<K>, all: seq<I>, key: Option<I -> K>) {
    key.Some? ==> seen == set i | 0 <= i < |all| :: key.value(all[i])
  }

  method Items<T, I, K(==)>(s: Strategy<T, I>, absolute: (string, string) -> string, server: Server<T>,
                            request: Request, maxPages: Option<int>, maxItems: Option<int>,
                            key: Option<I -> K>, horizon: nat)
    returns (r: Reading<T, I>)
    ensures Allowed(maxPages) && Allowed(maxItems)
        ==> ItemsRun(s, absolute, server, Address(request, None), maxPages, maxItems, key, horizon, r)
    ensures !Allowed(maxPages) || !Allowed(maxItems) ==> r == Reading([], [], 0, Raised)
  {
    if !Allowed(maxPages) || !Allowed(maxItems) {
      return Reading([], [], 0, Raised);
    }
    ghost var start := Address(request, None);
    var to := Address(request, None);
    var turns: seq<Turn<T>> := [];
    var given: seq<I> := [];
    var seen: set<K> := {};
    while (maxPages.None? || |turns| < maxPages.value) && |turns| < horizon
      invariant Reads(s, absolute, server, start, maxPages, maxItems, key, horizon, turns)
      invariant After(s, absolute, start, key, turns) == Send(to)
      invariant given == Firsts(Collected(s, turns), key) && (maxItems.Some? ==> |given| < maxItems.value)
      invariant Marks(seen, Collected(s, turns), key)
      decreases horizon - |turns|
    {
      var reply := server(|turns|, to);
      if reply.Failed? {
        r := Reading(turns, given, |turns| + 1, Raised);
        RunEnds(s, absolute, server, start, maxPages, maxItems, key, horizon, r, Send(to), false);
        return;
      }
      var turn := Turn(to, reply.result, reply.url);
      var next, full;
      given, seen, next, full := ReadPage(s, absolute, server, start, maxPages, maxItems, key, horizon, turns, turn,
                                          given, seen);
      turns := turns + [turn];
      if full || !next.Send? {
        r := Reading(turns, given, |turns|, if full || next.Done? then Finished else Raised);
        RunEnds(s, absolute, server, start, maxPages, maxItems, key, horizon, r,
                After(s, absolute, start, key, turns), full);
        return;
      }
      to := next.to;
    }
    r := Reading(turns, given, |turns|, if maxPages.Some? && |turns| == maxPages.value then Finished else Paused);
    RunEnds(s, absolute, server, start, maxPages, maxItems, key, horizon, r, Send(to), false);
  }

  lemma RunEnds<T, I, K>(s: Strategy<T, I>, absolute: (string, string) -> string, server: Server<T>,
                         start: Address, maxPages: Option<int>, maxItems: Option<int>,
                         key: Option<I -> K>, horizon: nat, r: Reading<T, I>, next: Next, full: bool)
    requires Reads(s, absolute, server, start, maxPages, maxItems, key, horizon, r.turns)
    requires r.given == Cut(Firsts(Collected(s, r.turns), key), maxItems)
    requires After(s, absolute, start, key, r.turns) == next
    requires full <==> maxItems.Some? && |Firsts(Collected(s, r.turns), key)| >= maxItems.value
    requires Ends(server, r.turns, next, full, maxPages.Some? && |r.turns| == maxPages.value, horizon, r.requests,
                  r.end)
    ensures ItemsRun(s, absolute, server, start, maxPages, maxItems, key, horizon, r)
  {
  }

  /** One pass of the outer loop, on a page that was answered: `next` is what follows unless `full`. */
  method ReadPage<T, I, K(==)>(s: Strategy<T, I>, absolute: (string, string) -> string, ghost server: Server<T>,
                               ghost start: Address, ghost maxPages: Option<int>, maxItems: Option<int>,
                               key: Option<I -> K>, ghost horizon: nat, ghost turns: seq<Turn<T>>, turn: Turn<T>,
                               given: seq<I>, seen: set<K>)
    returns (given': seq<I>, seen': set<K>, next: Next, full: bool)
    requires Reads(s, absolute, server, start, maxPages, maxItems, key, horizon, turns)
    requires |turns| < horizon && (maxPages.Some? ==> |turns| < maxPages.value)
    requires After(s, absolute, start, key, turns) == Send(turn.sent) && Answers(server, |turns|, turn)
    requires given == Firsts(Collected(s, turns), key) && (maxItems.Some? ==> |given| < maxItems.value)
    requires Marks(seen, Collected(s, turns), key)
    ensures Reads(s, absolute, server, start, maxPages, maxItems, key, horizon, turns + [turn])
    ensures given' == Cut(Firsts(Collected(s, turns + [turn]), key), maxItems)
    ensures full <==> maxItems.Some? && |Firsts(Collected(s, turns + [turn]), key)| >= maxItems.value
    ensures !full ==> Marks(seen', Collected(s, turns + [turn]), key)
                      && next == After(s, absolute, start, key, turns + [turn])
  {
    CollectedSnoc(s, turns, turn);
    OneMoreRead(s, absolute, server, start, maxPages, maxItems, key, horizon, turns, turn);
    var used;
    given', seen', used, full := TakePage(Collected(s, turns), s.items(turn.result), key, maxItems, given, seen);
    next := Done;
    if !full {
      AfterPage(s, absolute, start, key, turns, turn, used);
      next := NextPage(s, absolute, turn, used);
    }
  }

  lemma OneMoreElement<I, K>(all: seq<I>, item: I, key: Option<I -> K>, seen: set<K>)
    requires Marks(seen, all, key)
    ensures var known := key.Some? && key.value(item) in seen;
            && Firsts(all + [item], key) == (if known then Firsts(all, key) else Firsts(all, key) + [item])
            && (known ==> Marks(seen, all + [item], key))
            && Marks(if key.Some? then seen + {key.value(item)} else seen, all + [item], key)
  {
    if key.Some? {
      var more := all + [item];
      assert more[..|all|] == all;
      var marks := set i | 0 <= i < |more| :: key.value(more[i]);
      assert forall i :: 0 <= i < |all| ==> key.value(all[i]) == key.value(more[i]) && key.value(more[i]) in marks;
      assert key.value(more[|all|]) in marks;
      assert marks == seen + {key.value(item)};
      assert key.value(item) in seen ==> seen + {key.value(item)} == seen;
    }
  }

  lemma NextElement<I>(all: seq<I>, page: seq<I>, i: nat)
    requires i < |page|
    ensures all + [page[i]] + page[i + 1..] == all + page[i..]
  {
  }

  lemma NothingLeft<I>(all: seq<I>, page: seq<I>, i: nat)
    requires i == |page|
    ensures all + page[i..] == all
  {
  }

  /** Whatever follows, the elements wanted are those given so far. */
  lemma FullAt<I, K>(all: seq<I>, rest: seq<I>, key: Option<I -> K>, most: int)
    requires |Firsts(all, key)| == most
    ensures Cut(Firsts(all + rest, key), Some(most)) == Firsts(all, key) && |Firsts(all + rest, key)| >= most
  {
    FirstsPrefix(all, rest, key);
  }

  /** The loop over one page: `used` counts its new elements, `full` says that `maxItems` was reached. */
  method TakePage<I, K(==)>(ghost before: seq<I>, page: seq<I>, key: Option<I -> K>, maxItems: Option<int>,
                            given: seq<I>, seen: set<K>)
    returns (given': seq<I>, seen': set<K>, used: nat, full: bool)
    requires given == Firsts(before, key) && Marks(seen, before, key)
    requires maxItems.Some? ==> |given| < maxItems.value
    ensures given' == Cut(Firsts(before + page, key), maxItems)
    ensures full <==> maxItems.Some? && |Firsts(before + page, key)| >= maxItems.value
    ensures !full ==> Marks(seen', before + page, key)
    ensures !full ==> used == |Firsts(before + page, key)| - |Firsts(before, key)|
  {
    given', seen', used := given, seen, 0;
    var i := 0;
    ghost var all := before;
    while i < |page|
      invariant i <= |page| && all + page[i..] == before + page
      invariant given' == Firsts(all, key) && Marks(seen', all, key)
      invariant used == |given'| - |given| && (maxItems.Some? ==> |given'| < maxItems.value)
    {
      var item := page[i];
      NextElement(all, page, i);
      OneMoreElement(all, item, key, seen');
      all := all + [item];
      i := i + 1;
      if key.Some? {
        var mark := key.value(item);
        if mark in seen' {
          continue;
        }
        seen' := seen' + {mark};
      }
      used := used + 1;
      given' := given' + [item];
      if maxItems.Some? && |given'| == maxItems.value {
        FullAt(all, page[i..], key, maxItems.value);
        full := true;
        return;
      }
    }
    NothingLeft(all, page, i);
    full := false;
  }

  function NoKey<I>(): Option<I -> int> {
    None
  }

  function Results<T>(turns: seq<Turn<T>>): seq<T> {
    seq(|turns|, i requires 0 <= i < |turns| => turns[i].result)
  }

  /** `pages` reads what `items` without a key or an item bound would read, and yields the pages whole. */
  method Pages<T, I>(s: Strategy<T, I>, absolute: (string, string) -> string, server: Server<T>,
                     request: Request, maxPages: Option<int>, horizon: nat)
    returns (r: Reading<T, T>)
    ensures Allowed(maxPages)
        ==> r.given == Results(r.turns)
            && ItemsRun(s, absolute, server, Address(request, None), maxPages, None, NoKey(), horizon,
                        Reading(r.turns, Collected(s, r.turns), r.requests, r.end))
    ensures !Allowed(maxPages) ==> r == Reading([], [], 0, Raised)
  {
    if !Allowed(maxPages) {
      return Reading([], [], 0, Raised);
    }
    ghost var start := Address(request, None);
    ghost var key: Option<I -> int> := NoKey();
    var to := Address(request, None);
    var turns: seq<Turn<T>> := [];
    var given: seq<T> := [];
    while (maxPages.None? || |turns| < maxPages.value) && |turns| < horizon
      invariant Reads(s, absolute, server, start, maxPages, None, key, horizon, turns)
      invariant After(s, absolute, start, key, turns) == Send(to)
      invariant given == Results(turns)
      decreases horizon - |turns|
    {
      var reply := server(|turns|, to);
      if reply.Failed? {
        r := Reading(turns, given, |turns| + 1, Raised);
        PagesEnd(s, absolute, server, start, maxPages, horizon, r, Send(to));
        return;
      }
      var turn := Turn(to, reply.result, reply.url);
      OnePageMore(s, absolute, server, start, maxPages, horizon, turns, turn);
      given := given + [reply.result];
      turns := turns + [turn];
      var next := NextPage(s, absolute, turn, |s.items(reply.result)|);
      if !next.Send? {
        r := Reading(turns, given, |turns|, if next.Done? then Finished else Raised);
        PagesEnd(s, absolute, server, start, maxPages, horizon, r, next);
        return;
      }
      to := next.to;
    }
    r := Reading(turns, given, |turns|, if maxPages.Some? && |turns| == maxPages.value then Finished else Paused);
    PagesEnd(s, absolute, server, start, maxPages, horizon, r, Send(to));
  }

  lemma NoKeyKeepsAll<T, I>(s: Strategy<T, I>, turns: seq<Turn<T>>)
    ensures Firsts(Collected(s, turns), NoKey<I>()) == Collected(s, turns)
    ensures turns != [] ==> FreshAt(s, NoKey<I>(), turns, |turns| - 1) == |s.items(turns[|turns| - 1].result)|
  {
    if turns != [] {
      assert turns[..|turns|] == turns;
    }
  }

  lemma PagesEnd<T, I>(s: Strategy<T, I>, absolute: (string, string) -> string, server: Server<T>,
                       start: Address, maxPages: Option<int>, horizon: nat, r: Reading<T, T>, next: Next)
    requires Reads(s, absolute, server, start, maxPages, None, NoKey<I>(), horizon, r.turns)
    requires After(s, absolute, start, NoKey<I>(), r.turns) == next
    requires Ends(server, r.turns, next, false, maxPages.Some? && |r.turns| == maxPages.value, horizon, r.requests,
                  r.end)
    ensures ItemsRun(s, absolute, server, start, maxPages, None, NoKey<I>(), horizon,
                     Reading(r.turns, Collected(s, r.turns), r.requests, r.end))
  {
    NoKeyKeepsAll(s, r.turns);
  }

  lemma OnePageMore<T, I>(s: Strategy<T, I>, absolute: (string, string) -> string, server: Server<T>,
                          start: Address, maxPages: Option<int>, horizon: nat, turns: seq<Turn<T>>, turn: Turn<T>)
    requires Reads(s, absolute, server, start, maxPages, None, NoKey<I>(), horizon, turns)
    requires |turns| < horizon && (maxPages.Some? ==> |turns| < maxPages.value)
    requires After(s, absolute, start, NoKey<I>(), turns) == Send(turn.sent) && Answers(server, |turns|, turn)
    ensures Reads(s, absolute, server, start, maxPages, None, NoKey<I>(), horizon, turns + [turn])
    ensures After(s, absolute, start, NoKey<I>(), turns + [turn]) == NextPage(s, absolute, turn, |s.items(turn.result)|)
    ensures Results(turns + [turn]) == Results(turns) + [turn.result]
  {
    OneMoreRead(s, absolute, server, start, maxPages, None, NoKey<I>(), horizon, turns, turn);
    AfterPage(s, absolute, start, NoKey<I>(), turns, turn, |s.items(turn.result)|);
  }
}
