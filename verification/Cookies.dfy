/**
 The cookie jar: an ordered dictionary of cookies, the tick at which each was last used, and the two
 bounds that evict the least recently used. Storage and selection follow sections 5.3 and 5.4 of RFC 6265.
 */
module Cookies {
  import opened Ordering
  import opened CookieRules

  const MAX_PER_DOMAIN := 50
  const MAX_COOKIES := 3000

  /** `cookies` is the dictionary in insertion order, which is creation order. */
  datatype Jar = Jar(cookies: seq<Cookie>, used: map<Key, nat>, tick: nat)

  // ----- The dictionary

  function Keys(cs: seq<Cookie>): seq<Key> {
    if cs == [] then [] else [cs[0].Key()] + Keys(cs[1..])
  }

  /** `cookies[key] = cookie`: in the old place, or at the end. */
  function Put(cs: seq<Cookie>, c: Cookie): seq<Cookie> {
    if cs == [] then [c]
    else if cs[0].Key() == c.Key() then [c] + cs[1..]
    else [cs[0]] + Put(cs[1..], c)
  }

  function Without(cs: seq<Cookie>, gone: set<Key>): seq<Cookie> {
    if cs == [] then []
    else if cs[0].Key() in gone then Without(cs[1..], gone)
    else [cs[0]] + Without(cs[1..], gone)
  }

  function Expired(cs: seq<Cookie>, now: int): set<Key> {
    set c | c in cs && c.IsExpired(now) :: c.Key()
  }

  function KeysIn(cs: seq<Cookie>, domain: string): seq<Key> {
    if cs == [] then []
    else if cs[0].domain == domain then [cs[0].Key()] + KeysIn(cs[1..], domain)
    else KeysIn(cs[1..], domain)
  }

  /** One entry per key, and the ticks of exactly these keys, all different and in the past. */
  ghost predicate Valid(j: Jar) {
    && Distinct(Keys(j.cookies))
    && j.used.Keys == Elements(Keys(j.cookies))
    && PastTicks(j.used, j.tick)
  }

  /** Both bounds. */
  ghost predicate Bounded(j: Jar) {
    |j.cookies| <= MAX_COOKIES && forall d :: |KeysIn(j.cookies, d)| <= MAX_PER_DOMAIN
  }

  lemma {:induction false} KeysAt(cs: seq<Cookie>)
    ensures |Keys(cs)| == |cs|
    ensures forall i :: 0 <= i < |cs| ==> Keys(cs)[i] == cs[i].Key()
  {
    if cs != [] {
      KeysAt(cs[1..]);
    }
  }

  lemma KeysCons(c: Cookie, cs: seq<Cookie>)
    ensures Keys([c] + cs) == [c.Key()] + Keys(cs)
  {
    assert ([c] + cs)[1..] == cs;
  }

  lemma {:induction false} KeysConcat(a: seq<Cookie>, b: seq<Cookie>)
    ensures Keys(a + b) == Keys(a) + Keys(b)
  {
    if a == [] {
      assert a + b == b;
    } else {
      assert (a + b)[1..] == a[1..] + b;
      KeysConcat(a[1..], b);
    }
  }

  lemma {:induction false} PutNew(cs: seq<Cookie>, c: Cookie)
    requires c.Key() !in Keys(cs)
    ensures Put(cs, c) == cs + [c]
  {
    if cs != [] {
      assert cs[0].Key() == Keys(cs)[0] && Keys(cs[1..]) == Keys(cs)[1..];
      PutNew(cs[1..], c);
    }
  }

  lemma {:induction false} PutKnown(cs: seq<Cookie>, c: Cookie)
    requires c.Key() in Keys(cs)
    ensures Keys(Put(cs, c)) == Keys(cs) && c in Put(cs, c)
  {
    assert Keys(cs) == [cs[0].Key()] + Keys(cs[1..]);
    if cs[0].Key() == c.Key() {
      KeysCons(c, cs[1..]);
    } else {
      var rest := Put(cs[1..], c);
      PutKnown(cs[1..], c);
      KeysCons(cs[0], rest);
      assert c in rest;
    }
  }

  lemma PutKeys(cs: seq<Cookie>, c: Cookie)
    requires Distinct(Keys(cs))
    ensures Distinct(Keys(Put(cs, c)))
    ensures Keys(Put(cs, c)) == if c.Key() in Keys(cs) then Keys(cs) else Keys(cs) + [c.Key()]
    ensures c in Put(cs, c)
  {
    if c.Key() in Keys(cs) {
      PutKnown(cs, c);
    } else {
      PutNew(cs, c);
      KeysConcat(cs, [c]);
      assert Keys([c]) == [c.Key()];
    }
  }

  lemma {:induction false} WithoutMembers(cs: seq<Cookie>, gone: set<Key>)
    ensures forall c :: c in Without(cs, gone) <==> c in cs && c.Key() !in gone
    ensures |Without(cs, gone)| <= |cs|
  {
    if cs != [] {
      assert cs == [cs[0]] + cs[1..];
      WithoutMembers(cs[1..], gone);
    }
  }

  lemma {:induction false} WithoutKeys(cs: seq<Cookie>, gone: set<Key>)
    ensures forall k :: k in Keys(Without(cs, gone)) <==> k in Keys(cs) && k !in gone
    ensures Distinct(Keys(cs)) ==> Distinct(Keys(Without(cs, gone)))
  {
    if cs != [] {
      assert Keys(cs) == [cs[0].Key()] + Keys(cs[1..]) && Keys(cs[1..]) == Keys(cs)[1..];
      WithoutKeys(cs[1..], gone);
    }
  }

  lemma {:induction false} WithoutWithout(cs: seq<Cookie>, a: set<Key>, b: set<Key>)
    ensures Without(Without(cs, a), b) == Without(cs, a + b)
  {
    if cs != [] {
      WithoutWithout(cs[1..], a, b);
    }
  }

  lemma {:induction false} WithoutNothing(cs: seq<Cookie>, gone: set<Key>)
    requires forall c :: c in cs ==> c.Key() !in gone
    ensures Without(cs, gone) == cs
  {
    if cs != [] {
      assert cs == [cs[0]] + cs[1..];
      WithoutNothing(cs[1..], gone);
    }
  }

  lemma DropMore(j: Jar, a: set<Key>, b: set<Key>)
    ensures Drop(Drop(j, a), b) == Drop(j, a + b)
  {
    WithoutWithout(j.cookies, a, b);
    assert j.used - a - b == j.used - (a + b);
  }

  lemma DropNothing(j: Jar, gone: set<Key>)
    requires gone == {}
    ensures Drop(j, gone) == j
  {
    WithoutNothing(j.cookies, gone);
    assert j.used - gone == j.used;
  }

  lemma {:induction false} KeysInDomain(cs: seq<Cookie>, d: string)
    ensures forall k :: k in KeysIn(cs, d) <==> k in Keys(cs) && k.1 == d
    ensures Distinct(Keys(cs)) ==> Distinct(KeysIn(cs, d))
    ensures |KeysIn(cs, d)| <= |cs|
  {
    if cs != [] {
      assert Keys(cs) == [cs[0].Key()] + Keys(cs[1..]) && Keys(cs[1..]) == Keys(cs)[1..];
      KeysInDomain(cs[1..], d);
    }
  }

  // ----- Use

  /** The tick of a key, as `_used.get(key, 0)` reads it. */
  function UsedAt(used: map<Key, nat>, k: Key): nat {
    if k in used then used[k] else 0
  }

  function Older(used: map<Key, nat>): (Key, Key) -> bool {
    (a: Key, b: Key) => UsedAt(used, a) <= UsedAt(used, b)
  }

  /** The `excess` least recently used of `keys`. */
  function Victims(keys: seq<Key>, used: map<Key, nat>, excess: int): seq<Key>
    requires excess <= |keys|
  {
    if excess <= 0 then []
    else
      SortPermutes(keys, Older(used));
      Sort(keys, Older(used))[..excess]
  }

  lemma SortedByUse(keys: seq<Key>, used: map<Key, nat>)
    requires Distinct(keys)
    ensures var sorted := Sort(keys, Older(used));
            && |sorted| == |keys| && Distinct(sorted)
            && (forall i :: 0 <= i < |sorted| ==> sorted[i] in keys)
            && (forall k :: k in keys ==> k in sorted)
            && (forall i, j :: 0 <= i < j < |sorted| ==> UsedAt(used, sorted[i]) <= UsedAt(used, sorted[j]))
  {
    var sorted := Sort(keys, Older(used));
    SortPermutes(keys, Older(used));
    SortSorts(keys, Older(used));
    DistinctFromMultiset(keys, sorted);
    forall i | 0 <= i < |sorted| ensures sorted[i] in keys {
      assert sorted[i] in multiset(sorted);
    }
    forall k | k in keys ensures k in sorted {
      assert k in multiset(keys);
    }
    forall i, j | 0 <= i < j < |sorted| ensures UsedAt(used, sorted[i]) <= UsedAt(used, sorted[j]) {
      assert Older(used)(sorted[i], sorted[j]);
    }
  }

  /** `victims` are `excess` of `keys`, each used before every key that stays. */
  ghost predicate Oldest(victims: seq<Key>, keys: seq<Key>, used: map<Key, nat>, excess: int) {
    && Distinct(victims) && |victims| == (if excess <= 0 then 0 else excess)
    && (forall v :: v in victims ==> v in keys)
    && (forall v, k :: v in victims && k in keys && k !in victims ==> UsedAt(used, v) < UsedAt(used, k))
  }

  /** No two keys were last used at the same tick. */
  ghost predicate OwnTicks(used: map<Key, nat>) {
    forall k, k' :: k in used && k' in used && used[k] == used[k'] ==> k == k'
  }

  lemma VictimsAreOldest(keys: seq<Key>, used: map<Key, nat>, excess: int)
    requires excess <= |keys| && Distinct(keys) && (forall k :: k in keys ==> k in used) && OwnTicks(used)
    ensures Oldest(Victims(keys, used, excess), keys, used, excess)
  {
    if excess > 0 {
      var sorted := Sort(keys, Older(used));
      SortedByUse(keys, used);
      var victims := sorted[..excess];
      assert forall x :: 0 <= x < excess ==> sorted[x] == victims[x] && victims[x] in victims;
      forall v, k | v in victims && k in keys && k !in victims ensures UsedAt(used, v) < UsedAt(used, k) {
        var i :| 0 <= i < excess && sorted[i] == v;
        var j :| 0 <= j < |sorted| && sorted[j] == k;
        assert excess <= j;
      }
    }
  }

  function Touch(j: Jar, k: Key): Jar {
    j.(used := j.used[k := j.tick + 1], tick := j.tick + 1)
  }

  function TouchAll(j: Jar, cs: seq<Cookie>): Jar
    decreases |cs|
  {
    if cs == [] then j else TouchAll(Touch(j, cs[0].Key()), cs[1..])
  }

  // ----- Removal

  function Drop(j: Jar, gone: set<Key>): Jar {
    Jar(Without(j.cookies, gone), j.used - gone, j.tick)
  }

  function DropExpired(j: Jar, now: int): Jar {
    Drop(j, Expired(j.cookies, now))
  }

  /** The keys a domain loses. */
  function DomainVictims(j: Jar, d: string): seq<Key> {
    Victims(KeysIn(j.cookies, d), j.used, |KeysIn(j.cookies, d)| - MAX_PER_DOMAIN)
  }

  function OverfullVictims(j: Jar): set<Key> {
    set c | c in j.cookies && c.Key() in DomainVictims(j, c.domain) :: c.Key()
  }

  function TotalVictims(j: Jar): seq<Key> {
    KeysAt(j.cookies);
    Victims(Keys(j.cookies), j.used, |j.cookies| - MAX_COOKIES)
  }

  /** Expired cookies first, then what each overfull domain has too many of, then what the jar has. */
  function Evict(j: Jar, now: int): Jar {
    var live := DropExpired(j, now);
    var domains := Drop(live, OverfullVictims(live));
    Drop(domains, Elements(TotalVictims(domains)))
  }

  // ----- The jar's operations

  /** The jar after a line, and whether the line was taken without raising. */
  function StoreLine(j: Jar, site: Site, target: Target, line: Line, now: int): (Jar, bool) {
    match EffectOf(site, target, line, now)
    case Ignored => (j, true)
    case Raises => (j, false)
    case Removes(key) => (Drop(j, {key}), true)
    case Puts(c) => (Touch(j.(cookies := Put(j.cookies, c)), c.Key()), true)
  }

  function StoreLines(j: Jar, site: Site, target: Target, lines: seq<Line>, now: int): (Jar, bool)
    decreases |lines|
  {
    if lines == [] then (j, true)
    else
      var first := StoreLine(j, site, target, lines[0], now);
      if !first.1 then first else StoreLines(first.0, site, target, lines[1..], now)
  }

  /** A line that raises leaves the lines before it stored and nothing evicted. */
  function Store(j: Jar, site: Site, target: Target, lines: seq<Line>, now: int): (Jar, bool) {
    var stored := StoreLines(j, site, target, lines, now);
    if stored.1 then (Evict(stored.0, now), true) else stored
  }

  function Merge(j: Jar, state: seq<Cookie>, now: int): Jar
    decreases |state|
  {
    if state == [] then j
    else
      var c := state[0];
      Merge(if c.IsExpired(now) then j else Touch(j.(cookies := Put(j.cookies, c)), c.Key()), state[1..], now)
  }

  function Load(j: Jar, state: seq<Cookie>, now: int): Jar {
    Evict(Merge(j, state, now), now)
  }

  function Chosen(cs: seq<Cookie>, site: Site, target: Target): seq<Cookie> {
    if cs == [] then []
    else if Belongs(site, cs[0], target) then [cs[0]] + Chosen(cs[1..], site, target)
    else Chosen(cs[1..], site, target)
  }

  predicate LongerPathFirst(a: Cookie, b: Cookie) {
    |a.path| >= |b.path|
  }

  function Selected(j: Jar, site: Site, target: Target, now: int): seq<Cookie> {
    Sort(Chosen(DropExpired(j, now).cookies, site, target), LongerPathFirst)
  }

  function AfterSelect(j: Jar, site: Site, target: Target, now: int): Jar {
    var live := DropExpired(j, now);
    TouchAll(live, Chosen(live.cookies, site, target))
  }

  const EMPTY := Jar([], map[], 0)

  // ----- Every operation keeps the jar in order

  lemma DropKeepsValid(j: Jar, gone: set<Key>)
    requires Valid(j)
    ensures Valid(Drop(j, gone))
  {
    WithoutKeys(j.cookies, gone);
    assert Elements(Keys(Without(j.cookies, gone))) == Elements(Keys(j.cookies)) - gone;
  }

  ghost predicate PastTicks(used: map<Key, nat>, tick: nat) {
    OwnTicks(used) && forall k :: k in used ==> used[k] <= tick
  }

  lemma TouchTicks(used: map<Key, nat>, tick: nat, k: Key)
    requires PastTicks(used, tick)
    ensures PastTicks(used[k := tick + 1], tick + 1) && used[k := tick + 1].Keys == used.Keys + {k}
  {
  }

  lemma PutElements(cs: seq<Cookie>, c: Cookie)
    requires Distinct(Keys(cs))
    ensures Distinct(Keys(Put(cs, c))) && Elements(Keys(Put(cs, c))) == Elements(Keys(cs)) + {c.Key()}
  {
    PutKeys(cs, c);
  }

  lemma PutKeepsValid(j: Jar, c: Cookie)
    requires Valid(j)
    ensures Valid(Touch(j.(cookies := Put(j.cookies, c)), c.Key()))
  {
    TouchTicks(j.used, j.tick, c.Key());
    PutElements(j.cookies, c);
  }

  lemma TouchKeepsValid(j: Jar, k: Key)
    requires Valid(j) && k in Keys(j.cookies)
    ensures Valid(Touch(j, k))
  {
    TouchTicks(j.used, j.tick, k);
    assert Elements(Keys(j.cookies)) + {k} == Elements(Keys(j.cookies));
  }

  lemma {:induction false} TouchAllKeepsValid(j: Jar, cs: seq<Cookie>)
    requires Valid(j) && forall c :: c in cs ==> c.Key() in Keys(j.cookies)
    ensures Valid(TouchAll(j, cs)) && TouchAll(j, cs).cookies == j.cookies
    decreases |cs|
  {
    if cs != [] {
      TouchKeepsValid(j, cs[0].Key());
      TouchAllKeepsValid(Touch(j, cs[0].Key()), cs[1..]);
    }
  }

  lemma {:induction false} StoreLinesKeepsValid(j: Jar, site: Site, target: Target, lines: seq<Line>, now: int)
    requires Valid(j)
    ensures Valid(StoreLines(j, site, target, lines, now).0)
    decreases |lines|
  {
    if lines != [] {
      match EffectOf(site, target, lines[0], now) {
        case Removes(key) => DropKeepsValid(j, {key});
        case Puts(c) => PutKeepsValid(j, c);
        case _ =>
      }
      if StoreLine(j, site, target, lines[0], now).1 {
        StoreLinesKeepsValid(StoreLine(j, site, target, lines[0], now).0, site, target, lines[1..], now);
      }
    }
  }

  lemma {:induction false} MergeKeepsValid(j: Jar, state: seq<Cookie>, now: int)
    requires Valid(j)
    ensures Valid(Merge(j, state, now))
    decreases |state|
  {
    if state != [] {
      PutKeepsValid(j, state[0]);
      MergeKeepsValid(if state[0].IsExpired(now) then j
                      else Touch(j.(cookies := Put(j.cookies, state[0])), state[0].Key()),
                      state[1..], now);
    }
  }

  lemma SelectKeepsValid(j: Jar, site: Site, target: Target, now: int)
    requires Valid(j)
    ensures Valid(AfterSelect(j, site, target, now))
    ensures AfterSelect(j, site, target, now).cookies == DropExpired(j, now).cookies
  {
    var live := DropExpired(j, now);
    DropKeepsValid(j, Expired(j.cookies, now));
    ChosenFrom(live.cookies, site, target);
    forall c | c in Chosen(live.cookies, site, target) ensures c.Key() in Keys(live.cookies) {
      KeysAt(live.cookies);
      var i :| 0 <= i < |live.cookies| && live.cookies[i] == c;
      assert Keys(live.cookies)[i] == c.Key();
    }
    TouchAllKeepsValid(live, Chosen(live.cookies, site, target));
  }

  lemma {:induction false} ChosenFrom(cs: seq<Cookie>, site: Site, target: Target)
    ensures forall c :: c in Chosen(cs, site, target) <==> c in cs && Belongs(site, c, target)
  {
    if cs != [] {
      assert cs == [cs[0]] + cs[1..];
      ChosenFrom(cs[1..], site, target);
    }
  }

  // ----- Eviction

  lemma DomainVictimsAreOldest(j: Jar, d: string)
    requires Valid(j)
    ensures Oldest(DomainVictims(j, d), KeysIn(j.cookies, d), j.used, |KeysIn(j.cookies, d)| - MAX_PER_DOMAIN)
  {
    KeysInDomain(j.cookies, d);
    VictimsAreOldest(KeysIn(j.cookies, d), j.used, |KeysIn(j.cookies, d)| - MAX_PER_DOMAIN);
  }

  lemma TotalVictimsAreOldest(j: Jar)
    requires Valid(j)
    ensures |Keys(j.cookies)| == |j.cookies|
    ensures Oldest(TotalVictims(j), Keys(j.cookies), j.used, |j.cookies| - MAX_COOKIES)
  {
    KeysAt(j.cookies);
    VictimsAreOldest(Keys(j.cookies), j.used, |j.cookies| - MAX_COOKIES);
  }

  /** A key is evicted for its domain exactly when its domain's victims hold it. */
  lemma OverfullVictimsByDomain(j: Jar, k: Key)
    requires Valid(j)
    ensures k in OverfullVictims(j) <==> k in DomainVictims(j, k.1)
  {
    DomainVictimsAreOldest(j, k.1);
    KeysInDomain(j.cookies, k.1);
    KeysAt(j.cookies);
    if k in DomainVictims(j, k.1) {
      assert k in Keys(j.cookies);
      var i :| 0 <= i < |j.cookies| && Keys(j.cookies)[i] == k;
      assert j.cookies[i] in j.cookies && j.cookies[i].Key() == k;
    }
  }

  /** Taking `victims` out of a distinct list leaves the rest. */
  lemma Remaining(left: seq<Key>, keys: seq<Key>, victims: seq<Key>)
    requires Distinct(left) && Distinct(keys) && Distinct(victims)
    requires forall v :: v in victims ==> v in keys
    requires forall k :: k in left <==> k in keys && k !in victims
    ensures |left| == |keys| - |victims|
  {
    assert Elements(left) == Elements(keys) - Elements(victims);
    assert Elements(victims) <= Elements(keys);
    DistinctIffCardinality(left);
    DistinctIffCardinality(keys);
    DistinctIffCardinality(victims);
  }

  lemma DomainsFit(j: Jar, d: string)
    requires Valid(j)
    ensures |KeysIn(Drop(j, OverfullVictims(j)).cookies, d)| <= MAX_PER_DOMAIN
  {
    var left := Drop(j, OverfullVictims(j)).cookies;
    KeysInDomain(j.cookies, d);
    KeysInDomain(left, d);
    WithoutKeys(j.cookies, OverfullVictims(j));
    DomainVictimsAreOldest(j, d);
    forall k ensures k in KeysIn(left, d) <==> k in KeysIn(j.cookies, d) && k !in DomainVictims(j, d) {
      OverfullVictimsByDomain(j, k);
    }
    Remaining(KeysIn(left, d), KeysIn(j.cookies, d), DomainVictims(j, d));
  }

  lemma FewerKeysIn(cs: seq<Cookie>, gone: set<Key>, d: string)
    requires Distinct(Keys(cs))
    ensures |KeysIn(Without(cs, gone), d)| <= |KeysIn(cs, d)|
  {
    KeysInDomain(cs, d);
    KeysInDomain(Without(cs, gone), d);
    WithoutKeys(cs, gone);
    DistinctIffCardinality(KeysIn(cs, d));
    DistinctIffCardinality(KeysIn(Without(cs, gone), d));
    CardinalityMonotone(Elements(KeysIn(Without(cs, gone), d)), Elements(KeysIn(cs, d)));
  }

  lemma FewerKeysBounded(j: Jar, j': Jar)
    requires Valid(j) && Valid(j') && Bounded(j) && j'.used.Keys <= j.used.Keys
    ensures Bounded(j')
  {
    KeysAt(j.cookies);
    KeysAt(j'.cookies);
    DistinctIffCardinality(Keys(j.cookies));
    DistinctIffCardinality(Keys(j'.cookies));
    CardinalityMonotone(j'.used.Keys, j.used.Keys);
    forall d ensures |KeysIn(j'.cookies, d)| <= |KeysIn(j.cookies, d)| {
      KeysInDomain(j.cookies, d);
      KeysInDomain(j'.cookies, d);
      DistinctIffCardinality(KeysIn(j.cookies, d));
      DistinctIffCardinality(KeysIn(j'.cookies, d));
      forall k | k in Elements(KeysIn(j'.cookies, d)) ensures k in Elements(KeysIn(j.cookies, d)) {
        assert k in j'.used.Keys;
      }
      CardinalityMonotone(Elements(KeysIn(j'.cookies, d)), Elements(KeysIn(j.cookies, d)));
    }
  }

  lemma JarFits(j: Jar)
    requires Valid(j)
    ensures |Drop(j, Elements(TotalVictims(j))).cookies| <= MAX_COOKIES
  {
    var left := Drop(j, Elements(TotalVictims(j))).cookies;
    TotalVictimsAreOldest(j);
    WithoutKeys(j.cookies, Elements(TotalVictims(j)));
    KeysAt(left);
    Remaining(Keys(left), Keys(j.cookies), TotalVictims(j));
  }

  lemma EvictBounds(j: Jar, now: int)
    requires Valid(j)
    ensures Valid(Evict(j, now)) && Bounded(Evict(j, now))
    ensures |Evict(j, now).cookies| <= 3000 && forall d :: |KeysIn(Evict(j, now).cookies, d)| <= 50
  {
    var live := DropExpired(j, now);
    DropKeepsValid(j, Expired(j.cookies, now));
    var domains := Drop(live, OverfullVictims(live));
    DropKeepsValid(live, OverfullVictims(live));
    DropKeepsValid(domains, Elements(TotalVictims(domains)));
    JarFits(domains);
    forall d ensures |KeysIn(Evict(j, now).cookies, d)| <= MAX_PER_DOMAIN {
      DomainsFit(live, d);
      FewerKeysIn(domains.cookies, Elements(TotalVictims(domains)), d);
    }
  }

  lemma OverfullVictimIsOlder(j: Jar, c: Cookie, k: Cookie)
    requires Valid(j) && c in j.cookies && k in j.cookies && c.domain == k.domain
    requires c.Key() in OverfullVictims(j) && k.Key() !in OverfullVictims(j)
    ensures UsedAt(j.used, c.Key()) < UsedAt(j.used, k.Key())
  {
    OverfullVictimsByDomain(j, c.Key());
    OverfullVictimsByDomain(j, k.Key());
    DomainVictimsAreOldest(j, c.domain);
    KeysInDomain(j.cookies, c.domain);
    MemberKey(j.cookies, k);
  }

  lemma TotalVictimIsOlder(j: Jar, c: Cookie, k: Cookie)
    requires Valid(j) && c in j.cookies && k in j.cookies
    requires c.Key() in TotalVictims(j) && k.Key() !in TotalVictims(j)
    ensures UsedAt(j.used, c.Key()) < UsedAt(j.used, k.Key())
  {
    TotalVictimsAreOldest(j);
    MemberKey(j.cookies, k);
  }

  lemma KeptThroughout(j: Jar, now: int)
    ensures var live := DropExpired(j, now); var domains := Drop(live, OverfullVictims(live));
            forall k :: k in Evict(j, now).cookies ==>
              && k in live.cookies && k.Key() !in Expired(j.cookies, now) && k.Key() !in OverfullVictims(live)
              && k in domains.cookies && k.Key() !in TotalVictims(domains)
  {
    var live := DropExpired(j, now);
    var domains := Drop(live, OverfullVictims(live));
    WithoutMembers(domains.cookies, Elements(TotalVictims(domains)));
    WithoutMembers(live.cookies, OverfullVictims(live));
    WithoutMembers(j.cookies, Expired(j.cookies, now));
  }

  /** A live cookie that is evicted was used before every cookie its domain keeps, or before every cookie
      the jar keeps. */
  lemma EvictedWereLeastUsed(j: Jar, now: int, c: Cookie)
    requires Valid(j) && c in j.cookies && !c.IsExpired(now) && c !in Evict(j, now).cookies
    ensures (forall k :: k in Evict(j, now).cookies && k.domain == c.domain ==>
               UsedAt(j.used, c.Key()) < UsedAt(j.used, k.Key()))
         || (forall k :: k in Evict(j, now).cookies ==> UsedAt(j.used, c.Key()) < UsedAt(j.used, k.Key()))
  {
    var expired := Expired(j.cookies, now);
    var live := DropExpired(j, now);
    var overfull := OverfullVictims(live);
    var domains := Drop(live, overfull);
    DropKeepsValid(j, expired);
    DropKeepsValid(live, overfull);
    LiveKeyNotExpired(j, now, c);
    KeptThroughout(j, now);
    if c.Key() in overfull {
      forall k | k in Evict(j, now).cookies && k.domain == c.domain
        ensures UsedAt(j.used, c.Key()) < UsedAt(j.used, k.Key())
      {
        OverfullVictimIsOlder(live, c, k);
      }
    } else {
      WithoutMembers(live.cookies, overfull);
      WithoutMembers(domains.cookies, Elements(TotalVictims(domains)));
      forall k | k in Evict(j, now).cookies ensures UsedAt(j.used, c.Key()) < UsedAt(j.used, k.Key()) {
        TotalVictimIsOlder(domains, c, k);
      }
    }
  }

  lemma MemberKey(cs: seq<Cookie>, c: Cookie)
    requires c in cs
    ensures c.Key() in Keys(cs)
  {
    KeysAt(cs);
    var i :| 0 <= i < |cs| && cs[i] == c;
    assert Keys(cs)[i] == c.Key();
  }

  lemma SameKeySameCookie(cs: seq<Cookie>, a: Cookie, b: Cookie)
    requires Distinct(Keys(cs)) && a in cs && b in cs && a.Key() == b.Key()
    ensures a == b
  {
    KeysAt(cs);
    var i :| 0 <= i < |cs| && cs[i] == a;
    var k :| 0 <= k < |cs| && cs[k] == b;
    assert Keys(cs)[i] == Keys(cs)[k];
  }

  lemma LiveKeyNotExpired(j: Jar, now: int, c: Cookie)
    requires Valid(j) && c in j.cookies && !c.IsExpired(now)
    ensures c.Key() !in Expired(j.cookies, now) && c in DropExpired(j, now).cookies
  {
    WithoutMembers(j.cookies, Expired(j.cookies, now));
    if c.Key() in Expired(j.cookies, now) {
      var e :| e in j.cookies && e.IsExpired(now) && e.Key() == c.Key();
      SameKeySameCookie(j.cookies, c, e);
    }
  }

  lemma LiveExactly(j: Jar, now: int, c: Cookie)
    requires Valid(j)
    ensures c in DropExpired(j, now).cookies <==> c in j.cookies && !c.IsExpired(now)
  {
    WithoutMembers(j.cookies, Expired(j.cookies, now));
    if c in j.cookies && !c.IsExpired(now) {
      LiveKeyNotExpired(j, now, c);
    }
  }

  // ----- What eviction keeps, said without sorting

  /** The keys of `key`'s domain that were used after it. */
  ghost function NewerSiblings(used: map<Key, nat>, key: Key): set<Key> {
    set k | k in used && k.1 == key.1 && used[k] > UsedAt(used, key)
  }

  ghost predicate DomainKeeps(used: map<Key, nat>, key: Key) {
    |NewerSiblings(used, key)| < MAX_PER_DOMAIN
  }

  /** The keys used after `key`, as far as their own domains keep them. */
  ghost function NewerKept(used: map<Key, nat>, key: Key): set<Key> {
    set k | k in used && used[k] > UsedAt(used, key) && DomainKeeps(used, k)
  }

  /** Too few keys were used after `key` to push it out. */
  ghost predicate Keeps(used: map<Key, nat>, key: Key) {
    DomainKeeps(used, key) && |NewerKept(used, key)| < MAX_COOKIES
  }

  ghost function NewerAmong(keys: seq<Key>, used: map<Key, nat>, key: Key): set<Key> {
    set k | k in keys && UsedAt(used, k) > UsedAt(used, key)
  }

  /** With room for `limit` keys, a key stays exactly when fewer than `limit` were used after it. */
  lemma SparedIff(victims: seq<Key>, keys: seq<Key>, used: map<Key, nat>, limit: nat, key: Key)
    requires Oldest(victims, keys, used, |keys| - limit) && Distinct(keys) && key in keys
    ensures key !in victims <==> |NewerAmong(keys, used, key)| < limit
  {
    var newer, stay := NewerAmong(keys, used, key), Elements(keys) - Elements(victims);
    DistinctIffCardinality(victims);
    DistinctIffCardinality(keys);
    assert Elements(victims) <= Elements(keys);
    assert |stay| == |keys| - |victims|;
    if key in victims {
      assert stay <= newer;
      CardinalityMonotone(stay, newer);
    } else {
      assert newer <= stay - {key};
      CardinalityMonotone(newer, stay - {key});
    }
  }

  lemma DomainSparesIff(j: Jar, key: Key)
    requires Valid(j) && key in j.used
    ensures key !in OverfullVictims(j) <==> DomainKeeps(j.used, key)
  {
    var keys := KeysIn(j.cookies, key.1);
    OverfullVictimsByDomain(j, key);
    DomainVictimsAreOldest(j, key.1);
    KeysInDomain(j.cookies, key.1);
    SparedIff(DomainVictims(j, key.1), keys, j.used, MAX_PER_DOMAIN, key);
    assert NewerAmong(keys, j.used, key) == NewerSiblings(j.used, key);
  }

  lemma TotalSparesIff(j: Jar, key: Key)
    requires Valid(j) && key in Keys(Drop(j, OverfullVictims(j)).cookies)
    ensures key !in TotalVictims(Drop(j, OverfullVictims(j))) <==> |NewerKept(j.used, key)| < MAX_COOKIES
  {
    var domains := Drop(j, OverfullVictims(j));
    DropKeepsValid(j, OverfullVictims(j));
    TotalVictimsAreOldest(domains);
    SparedIff(TotalVictims(domains), Keys(domains.cookies), domains.used, MAX_COOKIES, key);
    assert key in domains.used && UsedAt(domains.used, key) == UsedAt(j.used, key);
    forall k ensures k in domains.used <==> k in j.used && DomainKeeps(j.used, k) {
      if k in j.used {
        DomainSparesIff(j, k);
      }
    }
    assert forall k :: k in Keys(domains.cookies) <==> k in domains.used;
    assert NewerAmong(Keys(domains.cookies), domains.used, key) == NewerKept(j.used, key);
  }

  /** Eviction keeps exactly the live cookies after which too few others were used. */
  lemma EvictKeepsExactly(j: Jar, now: int, c: Cookie)
    requires Valid(j)
    ensures c in Evict(j, now).cookies
       <==> c in j.cookies && !c.IsExpired(now) && Keeps(DropExpired(j, now).used, c.Key())
  {
    var live := DropExpired(j, now);
    var domains := Drop(live, OverfullVictims(live));
    DropKeepsValid(j, Expired(j.cookies, now));
    LiveExactly(j, now, c);
    WithoutMembers(live.cookies, OverfullVictims(live));
    WithoutMembers(domains.cookies, Elements(TotalVictims(domains)));
    if c in live.cookies {
      MemberKey(live.cookies, c);
      DomainSparesIff(live, c.Key());
      if c in domains.cookies {
        MemberKey(domains.cookies, c);
        TotalSparesIff(live, c.Key());
      }
    }
  }

  /** In particular the cookie used last. */
  lemma NewestSurvives(j: Jar, now: int, c: Cookie)
    requires Valid(j) && c in j.cookies && !c.IsExpired(now) && UsedAt(j.used, c.Key()) == j.tick
    ensures c in Evict(j, now).cookies
  {
    var used := DropExpired(j, now).used;
    EvictKeepsExactly(j, now, c);
    LiveKeyNotExpired(j, now, c);
    MemberKey(j.cookies, c);
    assert NewerSiblings(used, c.Key()) == {} && NewerKept(used, c.Key()) == {};
  }

  // ----- What a request carries

  lemma KeysDistinctCookiesDistinct(cs: seq<Cookie>)
    requires Distinct(Keys(cs))
    ensures Distinct(cs)
  {
    KeysAt(cs);
    forall i, k | 0 <= i < k < |cs| ensures cs[i] != cs[k] {
      assert Keys(cs)[i] != Keys(cs)[k];
    }
  }

  lemma {:induction false} ChosenKeepsOrder(cs: seq<Cookie>, site: Site, target: Target)
    requires Distinct(cs)
    ensures KeepsOrder(Chosen(cs, site, target), cs) && Distinct(Chosen(cs, site, target))
  {
    if cs != [] {
      ChosenKeepsOrder(cs[1..], site, target);
      ChosenFrom(cs[1..], site, target);
      if Belongs(site, cs[0], target) {
        TakeKeepsOrder(Chosen(cs[1..], site, target), cs);
      } else {
        SkipKeepsOrder(Chosen(cs[1..], site, target), cs);
      }
    }
  }

  lemma {:induction false} WithoutKeepsOrder(cs: seq<Cookie>, gone: set<Key>)
    requires Distinct(cs)
    ensures KeepsOrder(Without(cs, gone), cs)
  {
    if cs != [] {
      WithoutKeepsOrder(cs[1..], gone);
      if cs[0].Key() in gone {
        SkipKeepsOrder(Without(cs[1..], gone), cs);
      } else {
        TakeKeepsOrder(Without(cs[1..], gone), cs);
      }
    }
  }

  /** `r` is the live matching cookies, each once: longer paths first, equal paths oldest first. */
  ghost predicate CookieHeader(j: Jar, site: Site, target: Target, now: int, r: seq<Cookie>) {
    && (forall c :: c in r <==> c in j.cookies && !c.IsExpired(now) && Belongs(site, c, target))
    && Distinct(r) && (forall i, k :: 0 <= i < k < |r| ==> |r[i].path| >= |r[k].path|)
    && (forall i, k :: 0 <= i < k < |r| && |r[i].path| == |r[k].path| ==>
          IndexOf(j.cookies, r[i]) < IndexOf(j.cookies, r[k]))
  }

  /** Sorting puts longer paths first and keeps the order of equal ones. */
  lemma SortedByPath(chosen: seq<Cookie>)
    requires Distinct(chosen)
    ensures var r := Sort(chosen, LongerPathFirst);
            && Distinct(r) && (forall c :: c in r <==> c in chosen)
            && (forall i, k :: 0 <= i < k < |r| ==> |r[i].path| >= |r[k].path|)
            && (forall i, k :: 0 <= i < k < |r| && |r[i].path| == |r[k].path| ==>
                  IndexOf(chosen, r[i]) < IndexOf(chosen, r[k]))
  {
    var r := Sort(chosen, LongerPathFirst);
    SortPermutes(chosen, LongerPathFirst);
    DistinctFromMultiset(chosen, r);
    SortSorts(chosen, LongerPathFirst);
    SortIsStable(chosen, LongerPathFirst);
    forall i, k | 0 <= i < k < |r| ensures |r[i].path| >= |r[k].path| {
      assert LongerPathFirst(r[i], r[k]);
    }
    forall i, k | 0 <= i < k < |r| && |r[i].path| == |r[k].path| ensures IndexOf(chosen, r[i]) < IndexOf(chosen, r[k]) {
      assert LongerPathFirst(r[k], r[i]);
    }
  }

  lemma ChosenInOrder(j: Jar, site: Site, target: Target, now: int)
    requires Valid(j)
    ensures var chosen := Chosen(DropExpired(j, now).cookies, site, target);
            && Distinct(j.cookies) && Distinct(chosen) && KeepsOrder(chosen, j.cookies)
            && forall c :: c in chosen <==> c in j.cookies && !c.IsExpired(now) && Belongs(site, c, target)
  {
    var live := DropExpired(j, now).cookies;
    var chosen := Chosen(live, site, target);
    KeysDistinctCookiesDistinct(j.cookies);
    DropKeepsValid(j, Expired(j.cookies, now));
    KeysDistinctCookiesDistinct(live);
    WithoutKeepsOrder(j.cookies, Expired(j.cookies, now));
    ChosenKeepsOrder(live, site, target);
    KeepsOrderTransitive(chosen, live, j.cookies);
    ChosenFrom(live, site, target);
    forall c ensures c in live <==> c in j.cookies && !c.IsExpired(now) {
      LiveExactly(j, now, c);
    }
  }

  lemma SelectsExactly(j: Jar, site: Site, target: Target, now: int)
    requires Valid(j)
    ensures CookieHeader(j, site, target, now, Selected(j, site, target, now))
  {
    var chosen := Chosen(DropExpired(j, now).cookies, site, target);
    var r := Selected(j, site, target, now);
    ChosenInOrder(j, site, target, now);
    SortedByPath(chosen);
    forall i, k | 0 <= i < k < |r| && |r[i].path| == |r[k].path|
      ensures IndexOf(j.cookies, r[i]) < IndexOf(j.cookies, r[k])
    {
      assert chosen[IndexOf(chosen, r[i])] == r[i] && chosen[IndexOf(chosen, r[k])] == r[k];
    }
  }

  // ----- Snapshots

  lemma NextKeyIsNew(front: seq<Cookie>, rest: seq<Cookie>)
    requires rest != [] && Distinct(Keys(front + rest))
    ensures rest[0].Key() !in Keys(front)
  {
    var all := front + rest;
    KeysAt(all);
    KeysAt(front);
    forall i | 0 <= i < |front| ensures Keys(front)[i] != rest[0].Key() {
      assert Keys(all)[i] != Keys(all)[|front|] && all[i] == front[i] && all[|front|] == rest[0];
    }
  }

  lemma {:induction false} MergeAppends(j: Jar, state: seq<Cookie>, now: int)
    requires Distinct(Keys(j.cookies + state)) && forall c :: c in state ==> !c.IsExpired(now)
    ensures Merge(j, state, now).cookies == j.cookies + state
    decreases |state|
  {
    if state != [] {
      var c := state[0];
      NextKeyIsNew(j.cookies, state);
      PutNew(j.cookies, c);
      assert j.cookies + [c] + state[1..] == j.cookies + state;
      MergeAppends(Touch(j.(cookies := Put(j.cookies, c)), c.Key()), state[1..], now);
    }
  }

  lemma NoVictimsWhenBounded(j: Jar)
    requires Bounded(j)
    ensures OverfullVictims(j) == {} && TotalVictims(j) == []
  {
  }

  lemma EvictWhenBounded(j: Jar, now: int)
    requires Valid(j) && Bounded(j)
    ensures Evict(j, now).cookies == DropExpired(j, now).cookies
  {
    var live := DropExpired(j, now);
    WithoutMembers(j.cookies, Expired(j.cookies, now));
    forall d ensures |KeysIn(live.cookies, d)| <= MAX_PER_DOMAIN {
      FewerKeysIn(j.cookies, Expired(j.cookies, now), d);
    }
    NoVictimsWhenBounded(live);
    WithoutNothing(live.cookies, {});
    assert Drop(live, {}).cookies == live.cookies;
    assert |KeysIn(live.cookies, "")| == |KeysIn(Drop(live, {}).cookies, "")|;
    NoVictimsWhenBounded(Drop(live, {}));
    assert Elements(TotalVictims(Drop(live, {}))) == {};
  }

  /** Loading a snapshot evicts from exactly its cookies. */
  lemma SnapshotMerged(j: Jar, now: int)
    requires Valid(j)
    ensures var live := DropExpired(j, now); var merged := Merge(EMPTY, live.cookies, now);
            Valid(live) && Valid(merged) && merged.cookies == live.cookies && Expired(live.cookies, now) == {}
  {
    var live := DropExpired(j, now).cookies;
    DropKeepsValid(j, Expired(j.cookies, now));
    forall c | c in live ensures !c.IsExpired(now) {
      LiveExactly(j, now, c);
    }
    assert EMPTY.cookies + live == live;
    MergeAppends(EMPTY, live, now);
    MergeKeepsValid(EMPTY, live, now);
  }

  lemma RebuiltWhenBounded(j: Jar, now: int)
    requires Valid(j) && Bounded(DropExpired(j, now))
    ensures DropExpired(Load(EMPTY, DropExpired(j, now).cookies, now), now).cookies == DropExpired(j, now).cookies
  {
    var live := DropExpired(j, now).cookies;
    SnapshotMerged(j, now);
    EvictWhenBounded(Merge(EMPTY, live, now), now);
    WithoutNothing(live, {});
  }

  /** Rebuilding a jar whose live cookies exceed a bound loses one of them. */
  lemma RebuiltLosesOne(j: Jar, now: int) returns (c: Cookie)
    requires Valid(j) && !Bounded(DropExpired(j, now))
    ensures c in DropExpired(j, now).cookies && c !in Load(EMPTY, DropExpired(j, now).cookies, now).cookies
  {
    var live := DropExpired(j, now);
    var rebuilt := Load(EMPTY, live.cookies, now);
    SnapshotMerged(j, now);
    EvictBounds(Merge(EMPTY, live.cookies, now), now);
    if forall x :: x in live.cookies ==> x in rebuilt.cookies {
      forall k | k in live.used.Keys ensures k in rebuilt.used.Keys {
        KeysAt(live.cookies);
        var i :| 0 <= i < |live.cookies| && Keys(live.cookies)[i] == k;
        assert live.cookies[i] in live.cookies;
        MemberKey(rebuilt.cookies, live.cookies[i]);
      }
      FewerKeysBounded(rebuilt, live);
      assert false;
    }
    c :| c in live.cookies && c !in rebuilt.cookies;
  }

  /** The address a cookie was made for. */
  function HomeOf(c: Cookie): Target {
    Target("https", c.domain, c.path)
  }

  lemma BelongsAtHome(site: Site, c: Cookie)
    ensures Belongs(site, c, HomeOf(c))
  {
  }

  lemma RebuiltSendsLess(j: Jar, site: Site, now: int) returns (target: Target)
    requires Valid(j) && !Bounded(DropExpired(j, now))
    ensures Selected(Load(EMPTY, DropExpired(j, now).cookies, now), site, target, now) != Selected(j, site, target, now)
  {
    var live := DropExpired(j, now).cookies;
    var rebuilt := Load(EMPTY, live, now);
    var c := RebuiltLosesOne(j, now);
    target := HomeOf(c);
    SnapshotMerged(j, now);
    EvictBounds(Merge(EMPTY, live, now), now);
    LiveExactly(j, now, c);
    BelongsAtHome(site, c);
    SelectsExactly(j, site, target, now);
    SelectsExactly(rebuilt, site, target, now);
    assert c in Selected(j, site, target, now) && c !in Selected(rebuilt, site, target, now);
  }

  /** A jar rebuilt from a snapshot at the same clock sends the same cookies everywhere exactly when its live
      cookies are within both bounds. */
  lemma RebuiltJarSelectsTheSameIff(j: Jar, site: Site, now: int)
    requires Valid(j)
    ensures (forall target ::
               Selected(Load(EMPTY, DropExpired(j, now).cookies, now), site, target, now)
               == Selected(j, site, target, now))
       <==> Bounded(DropExpired(j, now))
  {
    if Bounded(DropExpired(j, now)) {
      RebuiltWhenBounded(j, now);
    } else {
      var target := RebuiltSendsLess(j, site, now);
    }
  }

  // ----- Reachable jars

  datatype Op =
    | StoreOp(site: Site, target: Target, lines: seq<Line>, now: int)
    | SelectOp(site: Site, target: Target, now: int)
    | LoadOp(state: seq<Cookie>, now: int)
    | SnapshotOp(now: int)

  /** The jar after one call, and whether the call returned. */
  function Apply(j: Jar, op: Op): (Jar, bool) {
    match op
    case StoreOp(site, target, lines, now) => Store(j, site, target, lines, now)
    case SelectOp(site, target, now) => (AfterSelect(j, site, target, now), true)
    case LoadOp(state, now) => (Load(j, state, now), true)
    case SnapshotOp(now) => (DropExpired(j, now), true)
  }

  function Run(j: Jar, ops: seq<Op>): Jar
    decreases |ops|
  {
    if ops == [] then j else Run(Apply(j, ops[0]).0, ops[1..])
  }

  /** Every call of the run returns. */
  predicate Returns(j: Jar, ops: seq<Op>)
    decreases |ops|
  {
    ops == [] || (Apply(j, ops[0]).1 && Returns(Apply(j, ops[0]).0, ops[1..]))
  }

  lemma ApplyKeepsValid(j: Jar, op: Op)
    requires Valid(j)
    ensures Valid(Apply(j, op).0)
    ensures (op.StoreOp? && Apply(j, op).1) || op.LoadOp? ==> Bounded(Apply(j, op).0)
    ensures !op.StoreOp? && Bounded(j) ==> Bounded(Apply(j, op).0)
    ensures !op.StoreOp? ==> Apply(j, op).1
  {
    match op
    case StoreOp(site, target, lines, now) =>
      StoreLinesKeepsValid(j, site, target, lines, now);
      EvictBounds(StoreLines(j, site, target, lines, now).0, now);
    case SelectOp(site, target, now) =>
      SelectKeepsValid(j, site, target, now);
      DropKeepsBounded(j, Expired(j.cookies, now));
    case LoadOp(state, now) =>
      MergeKeepsValid(j, state, now);
      EvictBounds(Merge(j, state, now), now);
    case SnapshotOp(now) =>
      DropKeepsValid(j, Expired(j.cookies, now));
      DropKeepsBounded(j, Expired(j.cookies, now));
  }

  lemma DropKeepsBounded(j: Jar, gone: set<Key>)
    requires Valid(j)
    ensures Bounded(j) ==> Bounded(Drop(j, gone))
  {
    WithoutMembers(j.cookies, gone);
    forall d ensures |KeysIn(Without(j.cookies, gone), d)| <= |KeysIn(j.cookies, d)| {
      FewerKeysIn(j.cookies, gone, d);
    }
  }

  /** Whether a run leaves the jar within its bounds: a `store` or `load` that returns makes it so, a `store` that
      raises may undo it, the rest keeps it. */
  predicate WithinBounds(j: Jar, ops: seq<Op>, before: bool)
    decreases |ops|
  {
    if ops == [] then before
    else
      var next := Apply(j, ops[0]);
      WithinBounds(next.0, ops[1..], if ops[0].StoreOp? then next.1 else before || ops[0].LoadOp?)
  }

  /** Every reachable jar is in order, and within both bounds unless a `store` raised after the last call that
      evicts returned. */
  lemma {:induction false} ReachableJar(j: Jar, ops: seq<Op>, before: bool)
    requires Valid(j) && (before ==> Bounded(j))
    ensures Valid(Run(j, ops))
    ensures WithinBounds(j, ops, before) ==> Bounded(Run(j, ops))
    decreases |ops|
  {
    if ops != [] {
      var next := Apply(j, ops[0]);
      ApplyKeepsValid(j, ops[0]);
      ReachableJar(next.0, ops[1..], if ops[0].StoreOp? then next.1 else before || ops[0].LoadOp?);
    }
  }

  /** In particular when every call returned. */
  lemma {:induction false} ReturningRunsKeepBounds(j: Jar, ops: seq<Op>)
    requires Returns(j, ops)
    ensures WithinBounds(j, ops, true)
    decreases |ops|
  {
    if ops != [] {
      ReturningRunsKeepBounds(Apply(j, ops[0]).0, ops[1..]);
    }
  }

  // ----- When a response can push a jar over its bounds

  lemma {:induction false} PutBeside(a: seq<Cookie>, b: seq<Cookie>, c: Cookie)
    requires c.Key() !in Keys(a)
    ensures Put(a + b, c) == a + Put(b, c)
  {
    if a == [] {
      assert a + b == b && a + Put(b, c) == Put(b, c);
    } else {
      assert (a + b)[1..] == a[1..] + b && a[0].Key() == Keys(a)[0] && Keys(a[1..]) == Keys(a)[1..];
      PutBeside(a[1..], b, c);
    }
  }

  lemma ConsConcat<T>(a: seq<T>, b: seq<T>)
    requires a != []
    ensures (a + b)[0] == a[0] && (a + b)[1..] == a[1..] + b && a + b == [a[0]] + (a[1..] + b)
  {
  }

  lemma {:induction false} WithoutBeside(a: seq<Cookie>, b: seq<Cookie>, key: Key)
    requires key !in Keys(a)
    ensures Without(a + b, {key}) == a + Without(b, {key})
  {
    if a == [] {
      assert a + b == b && a + Without(b, {key}) == Without(b, {key});
    } else {
      ConsConcat(a, b);
      ConsConcat(a, Without(b, {key}));
      assert Keys(a) == [a[0].Key()] + Keys(a[1..]);
      WithoutBeside(a[1..], b, key);
    }
  }

  lemma {:induction false} KeysInConcat(a: seq<Cookie>, b: seq<Cookie>, d: string)
    ensures KeysIn(a + b, d) == KeysIn(a, d) + KeysIn(b, d)
  {
    if a == [] {
      assert a + b == b;
    } else {
      assert (a + b)[1..] == a[1..] + b;
      KeysInConcat(a[1..], b, d);
    }
  }

  /** No line of the response writes or removes a cookie of `cs`. */
  ghost predicate Untouched(cs: seq<Cookie>, lines: seq<Line>) {
    forall i, c :: 0 <= i < |lines| && lines[i].Line? && c in cs ==> lines[i].name != c.name
  }

  lemma UntouchedKey(cs: seq<Cookie>, site: Site, target: Target, lines: seq<Line>, now: int)
    requires lines != [] && Untouched(cs, lines)
    ensures EffectOf(site, target, lines[0], now).Puts? ==>
              EffectOf(site, target, lines[0], now).cookie.Key() !in Keys(cs)
    ensures EffectOf(site, target, lines[0], now).Removes? ==> EffectOf(site, target, lines[0], now).key !in Keys(cs)
    ensures Untouched(cs, lines[1..])
  {
    KeysAt(cs);
    forall i | 0 <= i < |cs| && lines[0].Line? ensures Keys(cs)[i].0 != lines[0].name {
      assert cs[i] in cs;
    }
  }

  /** What a response does to a jar it shares no name with, it does beside what is there. */
  lemma {:induction false} StoreLinesBeside(a: seq<Cookie>, j: Jar, e: Jar, site: Site, target: Target,
                                            lines: seq<Line>, now: int)
    requires Untouched(a, lines) && j.cookies == a + e.cookies
    ensures StoreLines(j, site, target, lines, now).0.cookies == a + StoreLines(e, site, target, lines, now).0.cookies
    ensures StoreLines(j, site, target, lines, now).1 == StoreLines(e, site, target, lines, now).1
    decreases |lines|
  {
    if lines != [] {
      UntouchedKey(a, site, target, lines, now);
      match EffectOf(site, target, lines[0], now) {
        case Removes(key) => WithoutBeside(a, e.cookies, key);
        case Puts(c) => PutBeside(a, e.cookies, c);
        case _ =>
      }
      if StoreLine(e, site, target, lines[0], now).1 {
        StoreLinesBeside(a, StoreLine(j, site, target, lines[0], now).0, StoreLine(e, site, target, lines[0], now).0,
                         site, target, lines[1..], now);
      }
    }
  }

  /** The same response adds no key to a jar that it does not add to an empty one. */
  lemma {:induction false} StoreLinesAdds(base: set<Key>, j: Jar, e: Jar, site: Site, target: Target,
                                          lines: seq<Line>, now: int)
    requires Valid(j) && Valid(e) && j.used.Keys <= base + e.used.Keys
    ensures StoreLines(j, site, target, lines, now).0.used.Keys
          <= base + StoreLines(e, site, target, lines, now).0.used.Keys
    ensures StoreLines(j, site, target, lines, now).1 == StoreLines(e, site, target, lines, now).1
    decreases |lines|
  {
    if lines != [] {
      var j', e' := StoreLine(j, site, target, lines[0], now).0, StoreLine(e, site, target, lines[0], now).0;
      match EffectOf(site, target, lines[0], now) {
        case Removes(key) =>
          DropKeepsValid(j, {key});
          DropKeepsValid(e, {key});
          assert j'.used.Keys == j.used.Keys - {key} && e'.used.Keys == e.used.Keys - {key};
          StoreLinesAdds(base - {key}, j', e', site, target, lines[1..], now);
        case Puts(c) =>
          PutKeepsValid(j, c);
          PutKeepsValid(e, c);
          StoreLinesAdds(base, j', e', site, target, lines[1..], now);
        case Ignored => StoreLinesAdds(base, j, e, site, target, lines[1..], now);
        case Raises =>
      }
    }
  }

  /** `n` cookies of one domain, with names longer than `length`. */
  function Filler(n: nat, length: nat, domain: string): seq<Cookie> {
    if n == 0 then []
    else
      var last := Cookie(seq(length + n, _ => 'x'), "", domain, "/", true, None, false, false, "");
      Filler(n - 1, length, domain) + [last]
  }

  lemma {:induction false} FillerCookies(n: nat, length: nat, domain: string)
    ensures var f := Filler(n, length, domain);
            && |f| == n
            && forall c :: c in f ==> length < |c.name| <= length + n && c.domain == domain && c.expiresAt.None?
  {
    if n != 0 {
      FillerCookies(n - 1, length, domain);
    }
  }

  lemma {:induction false} FillerKeys(n: nat, length: nat, domain: string)
    ensures Distinct(Keys(Filler(n, length, domain)))
    ensures |KeysIn(Filler(n, length, domain), domain)| == n
  {
    if n != 0 {
      var front := Filler(n - 1, length, domain);
      var last := Cookie(seq(length + n, _ => 'x'), "", domain, "/", true, None, false, false, "");
      FillerKeys(n - 1, length, domain);
      FillerCookies(n - 1, length, domain);
      KeysInConcat(front, [last], domain);
      KeysConcat(front, [last]);
      KeysAt(front);
      assert forall i :: 0 <= i < |front| ==> front[i] in front;
      assert Keys([last]) == [last.Key()] && KeysIn([last], domain) == [last.Key()];
    }
  }

  lemma FillerFills(n: nat, length: nat, domain: string)
    ensures var f := Filler(n, length, domain);
            && |f| == |KeysIn(f, domain)| == n && Distinct(Keys(f))
            && (forall c :: c in f ==> length < |c.name| <= length + n && c.domain == domain && c.expiresAt.None?)
  {
    FillerCookies(n, length, domain);
    FillerKeys(n, length, domain);
  }

  lemma {:induction false} LongestName(lines: seq<Line>) returns (length: nat)
    ensures forall i :: 0 <= i < |lines| && lines[i].Line? ==> |lines[i].name| <= length
  {
    if lines == [] {
      length := 0;
    } else {
      length := LongestName(lines[1..]);
      if lines[0].Line? && length < |lines[0].name| {
        length := |lines[0].name|;
      }
    }
  }

  /** `load` of a full domain, from which nothing is evicted. */
  lemma FullDomainLoads(length: nat, domain: string, now: int)
    ensures var state := Filler(MAX_PER_DOMAIN, length, domain); var j := Run(EMPTY, [LoadOp(state, now)]);
            && j == Load(EMPTY, state, now)
            && Valid(j) && Bounded(j) && j.cookies == state
  {
    var state := Filler(MAX_PER_DOMAIN, length, domain);
    var merged := Merge(EMPTY, state, now);
    FillerFills(MAX_PER_DOMAIN, length, domain);
    assert EMPTY.cookies + state == state;
    MergeKeepsValid(EMPTY, state, now);
    MergeAppends(EMPTY, state, now);
    forall d ensures |KeysIn(state, d)| <= MAX_PER_DOMAIN {
      KeysInDomain(state, d);
    }
    EvictWhenBounded(merged, now);
    EvictBounds(merged, now);
    assert Expired(state, now) == {};
    WithoutNothing(state, {});
    OneCall(EMPTY, LoadOp(state, now));
  }

  lemma OneCall(j: Jar, op: Op)
    ensures Run(j, [op]) == Apply(j, op).0
  {
    assert Run(j, [op]) == Run(Apply(j, op).0, [op][1..]) && [op][1..] == [];
  }

  /** A reachable jar within its bounds that this response pushes over them. */
  lemma OverfullExample(site: Site, target: Target, lines: seq<Line>, now: int) returns (length: nat, domain: string)
    requires !StoreLines(EMPTY, site, target, lines, now).1
             && StoreLines(EMPTY, site, target, lines, now).0.cookies != []
    ensures var j := Run(EMPTY, [LoadOp(Filler(MAX_PER_DOMAIN, length, domain), now)]);
            Valid(j) && Bounded(j) && !Bounded(Store(j, site, target, lines, now).0)
  {
    var added := StoreLines(EMPTY, site, target, lines, now).0.cookies;
    domain := added[0].domain;
    length := LongestName(lines);
    PushedOver(site, target, lines, now, length, domain);
  }

  lemma PushedOver(site: Site, target: Target, lines: seq<Line>, now: int, length: nat, domain: string)
    requires !StoreLines(EMPTY, site, target, lines, now).1
    requires KeysIn(StoreLines(EMPTY, site, target, lines, now).0.cookies, domain) != []
    requires forall i :: 0 <= i < |lines| && lines[i].Line? ==> |lines[i].name| <= length
    ensures var j := Run(EMPTY, [LoadOp(Filler(MAX_PER_DOMAIN, length, domain), now)]);
            var after := Store(j, site, target, lines, now);
            && Valid(j) && Bounded(j) && !after.1 && !Bounded(after.0)
            && after.0.cookies == j.cookies + StoreLines(EMPTY, site, target, lines, now).0.cookies
  {
    var filler := Filler(MAX_PER_DOMAIN, length, domain);
    var j := Run(EMPTY, [LoadOp(filler, now)]);
    var added := StoreLines(EMPTY, site, target, lines, now).0.cookies;
    FillerFills(MAX_PER_DOMAIN, length, domain);
    FullDomainLoads(length, domain, now);
    assert filler == filler + EMPTY.cookies;
    StoreLinesBeside(filler, j, EMPTY, site, target, lines, now);
    KeysInConcat(filler, added, domain);
    assert |KeysIn(added, domain)| >= 1;
  }

  /** The k-th line raises, and none before it does. */
  ghost predicate RaisesFirstAt(site: Site, target: Target, lines: seq<Line>, now: int, k: nat) {
    && k < |lines| && EffectOf(site, target, lines[k], now).Raises?
    && forall i :: 0 <= i < k ==> !EffectOf(site, target, lines[i], now).Raises?
  }

  /** The i-th line puts a cookie with this key. */
  predicate PutsAt(site: Site, target: Target, lines: seq<Line>, now: int, i: nat, key: Key) {
    && i < |lines| && EffectOf(site, target, lines[i], now).Puts?
    && EffectOf(site, target, lines[i], now).cookie.Key() == key
  }

  predicate RemovesAt(site: Site, target: Target, lines: seq<Line>, now: int, i: nat, key: Key) {
    i < |lines| && EffectOf(site, target, lines[i], now) == Removes(key)
  }

  /** A line after the i-th and before the k-th removes this key. */
  ghost predicate TakenBack(site: Site, target: Target, lines: seq<Line>, now: int, i: nat, k: nat, key: Key) {
    exists m: nat :: i < m < k && RemovesAt(site, target, lines, now, m, key)
  }

  /** Whatever a line before the k-th puts, a later line before the k-th removes. */
  ghost predicate AllTakenBack(site: Site, target: Target, lines: seq<Line>, now: int, k: nat) {
    forall i: nat, key ::
      i < k && PutsAt(site, target, lines, now, i, key) ==> TakenBack(site, target, lines, now, i, k, key)
  }

  lemma {:induction false} StoreLinesConcat(j: Jar, site: Site, target: Target, a: seq<Line>, b: seq<Line>, now: int)
    requires StoreLines(j, site, target, a, now).1
    ensures StoreLines(j, site, target, a + b, now)
         == StoreLines(StoreLines(j, site, target, a, now).0, site, target, b, now)
    decreases |a|
  {
    if a == [] {
      assert a + b == b;
    } else {
      assert (a + b)[0] == a[0] && (a + b)[1..] == a[1..] + b;
      StoreLinesConcat(StoreLine(j, site, target, a[0], now).0, site, target, a[1..], b, now);
    }
  }

  /** A response is stored up to its first raising line. */
  lemma {:induction false} StoredUpTo(j: Jar, site: Site, target: Target, lines: seq<Line>, now: int)
    ensures StoreLines(j, site, target, lines, now).1
       <==> forall i :: 0 <= i < |lines| ==> !EffectOf(site, target, lines[i], now).Raises?
    ensures forall k: nat :: RaisesFirstAt(site, target, lines, now, k) ==>
              StoreLines(j, site, target, lines, now).0 == StoreLines(j, site, target, lines[..k], now).0
    decreases |lines|
  {
    if lines != [] {
      var first, rest := StoreLine(j, site, target, lines[0], now), lines[1..];
      if first.1 {
        StoredUpTo(first.0, site, target, rest, now);
        assert forall i :: 0 <= i < |rest| ==> rest[i] == lines[i + 1];
      }
      forall k: nat | RaisesFirstAt(site, target, lines, now, k)
        ensures StoreLines(j, site, target, lines, now).0 == StoreLines(j, site, target, lines[..k], now).0
      {
        if k != 0 {
          assert RaisesFirstAt(site, target, rest, now, k - 1);
          assert lines[..k][0] == lines[0] && lines[..k][1..] == rest[..k - 1];
        }
      }
    }
  }

  lemma OneLine(j: Jar, site: Site, target: Target, line: Line, now: int)
    ensures StoreLines(j, site, target, [line], now) == StoreLine(j, site, target, line, now)
  {
    var after := StoreLine(j, site, target, line, now);
    assert [line][1..] == [];
    assert StoreLines(after.0, site, target, [], now) == (after.0, true);
  }

  /** Some line puts this key and no later one takes it back. */
  ghost predicate Lasts(site: Site, target: Target, lines: seq<Line>, now: int, key: Key) {
    exists i: nat :: LastsFrom(site, target, lines, now, i, key)
  }

  ghost predicate LastsFrom(site: Site, target: Target, lines: seq<Line>, now: int, i: nat, key: Key) {
    PutsAt(site, target, lines, now, i, key) && !TakenBack(site, target, lines, now, i, |lines|, key)
  }

  lemma LastsSnoc(site: Site, target: Target, front: seq<Line>, last: Line, now: int, key: Key)
    ensures var effect := EffectOf(site, target, last, now);
            Lasts(site, target, front + [last], now, key) <==>
              (effect.Puts? && effect.cookie.Key() == key)
              || (effect != Removes(key) && Lasts(site, target, front, now, key))
  {
    var lines, effect, n := front + [last], EffectOf(site, target, last, now), |front|;
    assert forall m: nat :: m < n ==>
             && PutsAt(site, target, lines, now, m, key) == PutsAt(site, target, front, now, m, key)
             && RemovesAt(site, target, lines, now, m, key) == RemovesAt(site, target, front, now, m, key);
    assert RemovesAt(site, target, lines, now, n, key) <==> effect == Removes(key);
    if effect.Puts? && effect.cookie.Key() == key {
      assert LastsFrom(site, target, lines, now, n, key);
    }
    forall i: nat | i < n
      ensures LastsFrom(site, target, lines, now, i, key)
         <==> effect != Removes(key) && LastsFrom(site, target, front, now, i, key)
    {
      TakenBackSnoc(site, target, front, last, now, i, key);
    }
    if Lasts(site, target, front, now, key) && effect != Removes(key) {
      var i: nat :| LastsFrom(site, target, front, now, i, key);
      assert LastsFrom(site, target, lines, now, i, key);
    }
    if Lasts(site, target, lines, now, key) {
      var i: nat :| LastsFrom(site, target, lines, now, i, key);
      assert i == n || LastsFrom(site, target, front, now, i, key);
    }
  }

  lemma TakenBackSnoc(site: Site, target: Target, front: seq<Line>, last: Line, now: int, i: nat, key: Key)
    requires i < |front|
    ensures TakenBack(site, target, front + [last], now, i, |front| + 1, key)
       <==> EffectOf(site, target, last, now) == Removes(key)
            || TakenBack(site, target, front, now, i, |front|, key)
  {
    var lines, n := front + [last], |front|;
    assert forall m: nat :: m < n ==> (RemovesAt(site, target, lines, now, m, key) <==>
                                       RemovesAt(site, target, front, now, m, key));
    assert RemovesAt(site, target, lines, now, n, key) <==> EffectOf(site, target, last, now) == Removes(key);
  }

  /** What an empty jar holds after a response that does not raise. */
  lemma {:induction false} KeysLeft(site: Site, target: Target, lines: seq<Line>, now: int, key: Key)
    requires StoreLines(EMPTY, site, target, lines, now).1
    ensures key in Keys(StoreLines(EMPTY, site, target, lines, now).0.cookies)
       <==> Lasts(site, target, lines, now, key)
    decreases |lines|
  {
    if lines != [] {
      var front, last := lines[..|lines| - 1], lines[|lines| - 1];
      assert lines == front + [last];
      StoredUpTo(EMPTY, site, target, lines, now);
      StoredUpTo(EMPTY, site, target, front, now);
      KeysLeft(site, target, front, now, key);
      StoreLinesConcat(EMPTY, site, target, front, [last], now);
      OneLine(StoreLines(EMPTY, site, target, front, now).0, site, target, last, now);
      LastsSnoc(site, target, front, last, now, key);
      KeyAfterLine(StoreLines(EMPTY, site, target, front, now).0, site, target, front, last, now, key);
    }
  }

  lemma KeyAfterLine(j: Jar, site: Site, target: Target, front: seq<Line>, line: Line, now: int, key: Key)
    requires j == StoreLines(EMPTY, site, target, front, now).0 && !EffectOf(site, target, line, now).Raises?
    ensures var effect := EffectOf(site, target, line, now);
            key in Keys(StoreLine(j, site, target, line, now).0.cookies) <==>
              (effect.Puts? && effect.cookie.Key() == key) || (effect != Removes(key) && key in Keys(j.cookies))
  {
    StoreLinesKeepsValid(EMPTY, site, target, front, now);
    match EffectOf(site, target, line, now)
    case Removes(gone) => WithoutKeys(j.cookies, {gone});
    case Puts(c) => PutKeys(j.cookies, c);
    case _ =>
  }

  /** Nothing is left in an empty jar exactly when everything was taken back. */
  lemma NothingLeftIff(site: Site, target: Target, lines: seq<Line>, now: int, k: nat)
    requires RaisesFirstAt(site, target, lines, now, k)
    ensures StoreLines(EMPTY, site, target, lines, now).0.cookies == [] <==> AllTakenBack(site, target, lines, now, k)
  {
    var before := lines[..k];
    StoredUpTo(EMPTY, site, target, lines, now);
    StoredUpTo(EMPTY, site, target, before, now);
    var left := StoreLines(EMPTY, site, target, before, now).0.cookies;
    forall i: nat, key
      ensures LastsFrom(site, target, before, now, i, key)
         <==> i < k && PutsAt(site, target, lines, now, i, key) && !TakenBack(site, target, lines, now, i, k, key)
    {
      TakenBackBefore(site, target, lines, now, i, k, key);
    }
    forall key ensures key in Keys(left) <==> Lasts(site, target, before, now, key) {
      KeysLeft(site, target, before, now, key);
    }
    if left == [] {
      forall i: nat, key | i < k && PutsAt(site, target, lines, now, i, key)
        ensures TakenBack(site, target, lines, now, i, k, key)
      {
        assert key !in Keys(left) && !LastsFrom(site, target, before, now, i, key);
      }
    } else {
      assert Lasts(site, target, before, now, Keys(left)[0]);
    }
  }

  lemma TakenBackBefore(site: Site, target: Target, lines: seq<Line>, now: int, i: nat, k: nat, key: Key)
    requires k <= |lines|
    ensures TakenBack(site, target, lines[..k], now, i, k, key) <==> TakenBack(site, target, lines, now, i, k, key)
  {
    assert forall m: nat :: m < k ==> (RemovesAt(site, target, lines[..k], now, m, key) <==>
                                       RemovesAt(site, target, lines, now, m, key));
  }

  /** Storing a response keeps every bounded jar bounded exactly when no line raises, or every cookie put before
      the first that does is removed again before it. */
  lemma BoundsSurviveStoreIff(site: Site, target: Target, lines: seq<Line>, now: int)
    ensures (forall j :: Valid(j) && Bounded(j) ==> Bounded(Store(j, site, target, lines, now).0))
       <==> forall k: nat :: RaisesFirstAt(site, target, lines, now, k) ==> AllTakenBack(site, target, lines, now, k)
  {
    var fromEmpty := StoreLines(EMPTY, site, target, lines, now);
    StoredUpTo(EMPTY, site, target, lines, now);
    if fromEmpty.1 {
      forall j | Valid(j) && Bounded(j) ensures Bounded(Store(j, site, target, lines, now).0) {
        StoreKeepsBounds(j, site, target, lines, now);
      }
    } else {
      var k := FirstRaise(site, target, lines, now);
      NothingLeftIff(site, target, lines, now, k);
      if fromEmpty.0.cookies == [] {
        forall j | Valid(j) && Bounded(j) ensures Bounded(Store(j, site, target, lines, now).0) {
          StoreKeepsBounds(j, site, target, lines, now);
        }
      } else {
        var length, domain := OverfullExample(site, target, lines, now);
      }
    }
  }

  lemma {:induction false} FirstRaise(site: Site, target: Target, lines: seq<Line>, now: int) returns (k: nat)
    requires exists i :: 0 <= i < |lines| && EffectOf(site, target, lines[i], now).Raises?
    ensures RaisesFirstAt(site, target, lines, now, k)
    ensures forall n :: RaisesFirstAt(site, target, lines, now, n) ==> n == k
  {
    k := 0;
    while !EffectOf(site, target, lines[k], now).Raises?
      invariant k < |lines| && forall i :: 0 <= i < k ==> !EffectOf(site, target, lines[i], now).Raises?
      decreases |lines| - k
    {
      k := k + 1;
    }
  }

  lemma StoreKeepsBounds(j: Jar, site: Site, target: Target, lines: seq<Line>, now: int)
    requires Valid(j) && Bounded(j)
    requires StoreLines(EMPTY, site, target, lines, now).1
             || StoreLines(EMPTY, site, target, lines, now).0.cookies == []
    ensures Bounded(Store(j, site, target, lines, now).0)
  {
    StoreLinesKeepsValid(EMPTY, site, target, lines, now);
    StoreLinesKeepsValid(j, site, target, lines, now);
    StoreLinesAdds(j.used.Keys, j, EMPTY, site, target, lines, now);
    if StoreLines(EMPTY, site, target, lines, now).1 {
      EvictBounds(StoreLines(j, site, target, lines, now).0, now);
    } else {
      FewerKeysBounded(j, StoreLines(j, site, target, lines, now).0);
    }
  }

  /** Whether storing raises can be read off the lines, whatever the jar holds. */
  lemma StoreRaisesIff(j: Jar, site: Site, target: Target, lines: seq<Line>, now: int)
    requires target.WellFormed() && forall i :: 0 <= i < |lines| ==> lines[i].WellFormed()
    ensures Store(j, site, target, lines, now).1
       <==> forall i :: 0 <= i < |lines| ==> !RaisingLine(site, target, lines[i], now)
    ensures forall k: nat :: RaisesFirstAt(site, target, lines, now, k) <==>
              && k < |lines| && RaisingLine(site, target, lines[k], now)
              && forall i :: 0 <= i < k ==> !RaisingLine(site, target, lines[i], now)
  {
    StoredUpTo(j, site, target, lines, now);
    forall i | 0 <= i < |lines|
      ensures EffectOf(site, target, lines[i], now).Raises? <==> RaisingLine(site, target, lines[i], now)
    {
      RaisesIff(site, target, lines[i], now);
    }
  }

  const PLAIN := Attributes("", "", None, None, false, false, "")
  const MAIL := Target("https", "mail.example", "/")

  /** A cookie, and a line whose `Max-Age` is past the last timestamp. */
  const COOKIE_THEN_OVERFLOW := [Line("a", "1", PLAIN), Line("b", "1", PLAIN.(maxAge := Some(MAX_TIME + 1)))]

  function FullMail(now: int): Op {
    LoadOp(Filler(MAX_PER_DOMAIN, 1, "mail.example"), now)
  }

  lemma OverflowFromEmpty(site: Site, now: int)
    requires 0 <= now
    ensures var c := Cookie("a", "1", "mail.example", "/", true, None, false, false, "");
            var stored := StoreLines(EMPTY, site, MAIL, COOKIE_THEN_OVERFLOW, now);
            !stored.1 && stored.0.cookies == [c] && KeysIn([c], "mail.example") == [c.Key()]
  {
    var lines := COOKIE_THEN_OVERFLOW;
    var first := StoreLine(EMPTY, site, MAIL, lines[0], now);
    var c := EffectOf(site, MAIL, lines[0], now).cookie;
    assert first.0.cookies == [c] && lines[1..][0] == lines[1];
    assert EffectOf(site, MAIL, lines[1], now).Raises?;
    assert StoreLines(first.0, site, MAIL, lines[1..], now) == (first.0, false);
  }

  /** The jar that these two lines leave behind. */
  lemma FullThenOverflow(site: Site, now: int)
    requires 0 <= now
    ensures var before := Run(EMPTY, [FullMail(now)]);
            var j := Run(EMPTY, [FullMail(now), StoreOp(site, MAIL, COOKIE_THEN_OVERFLOW, now)]);
            && Bounded(before) && Valid(j) && |j.cookies| == MAX_PER_DOMAIN + 1 && !Bounded(j)
            && forall x :: x in j.cookies ==> x.expiresAt.None?
  {
    var store := StoreOp(site, MAIL, COOKIE_THEN_OVERFLOW, now);
    var before := Run(EMPTY, [FullMail(now)]);
    OverflowFromEmpty(site, now);
    PushedOver(site, MAIL, COOKIE_THEN_OVERFLOW, now, 1, "mail.example");
    FullDomainLoads(1, "mail.example", now);
    FillerFills(MAX_PER_DOMAIN, 1, "mail.example");
    StoreLinesKeepsValid(before, site, MAIL, COOKIE_THEN_OVERFLOW, now);
    TwoCalls(EMPTY, FullMail(now), store);
  }

  lemma TwoCalls(j: Jar, first: Op, second: Op)
    ensures Run(j, [first, second]) == Apply(Run(j, [first]), second).0
  {
    OneCall(j, first);
    OneCall(Apply(j, first).0, second);
    assert [first, second][1..] == [second];
  }

  lemma RebuiltDiffers(j: Jar, site: Site, now: int)
    requires Valid(j) && !Bounded(j) && forall x :: x in j.cookies ==> x.expiresAt.None?
    ensures exists target :: Selected(Load(EMPTY, DropExpired(j, now).cookies, now), site, target, now)
                             != Selected(j, site, target, now)
  {
    DropNothing(j, Expired(j.cookies, now));
    var target := RebuiltSendsLess(j, site, now);
  }

  /** These two lines push a jar over its bounds that a `load` has filled, and rebuilding the jar from its
      snapshot then loses a cookie that it sends. */
  lemma OverflowingMaxAgeBreaksBounds(site: Site, now: int)
    requires 0 <= now <= MAX_TIME
    ensures MAIL.WellFormed() && |COOKIE_THEN_OVERFLOW| == 2
            && forall i :: 0 <= i < 2 ==> COOKIE_THEN_OVERFLOW[i].WellFormed()
    ensures var before := Run(EMPTY, [FullMail(now)]);
            var j := Run(EMPTY, [FullMail(now), StoreOp(site, MAIL, COOKIE_THEN_OVERFLOW, now)]);
            && Bounded(before) && |j.cookies| == MAX_PER_DOMAIN + 1 && !Bounded(j)
            && exists target :: Selected(Load(EMPTY, DropExpired(j, now).cookies, now), site, target, now)
                                != Selected(j, site, target, now)
  {
    var j := Run(EMPTY, [FullMail(now), StoreOp(site, MAIL, COOKIE_THEN_OVERFLOW, now)]);
    FullThenOverflow(site, now);
    RebuiltDiffers(j, site, now);
  }

  // ----- Read your writes

  /** No line up to the first that raises puts or removes this key. */
  predicate Leaves(site: Site, target: Target, lines: seq<Line>, now: int, key: Key) {
    lines == [] ||
      match EffectOf(site, target, lines[0], now)
      case Raises => true
      case Removes(gone) => gone != key && Leaves(site, target, lines[1..], now, key)
      case Puts(c) => c.Key() != key && Leaves(site, target, lines[1..], now, key)
      case Ignored => Leaves(site, target, lines[1..], now, key)
  }

  /** The k-th line is reached: none before it raises. */
  ghost predicate Reached(site: Site, target: Target, lines: seq<Line>, now: int, k: nat) {
    k < |lines| && forall i :: 0 <= i < k ==> !EffectOf(site, target, lines[i], now).Raises?
  }

  lemma {:induction false} LeavesIff(site: Site, target: Target, lines: seq<Line>, now: int, key: Key)
    ensures Leaves(site, target, lines, now, key) <==>
              forall k: nat :: Reached(site, target, lines, now, k) ==>
                !PutsAt(site, target, lines, now, k, key) && !RemovesAt(site, target, lines, now, k, key)
    decreases |lines|
  {
    if lines != [] {
      var rest := lines[1..];
      LeavesIff(site, target, rest, now, key);
      assert Reached(site, target, lines, now, 0);
      if !EffectOf(site, target, lines[0], now).Raises? {
        forall k: nat
          ensures Reached(site, target, rest, now, k) <==> Reached(site, target, lines, now, k + 1)
          ensures PutsAt(site, target, rest, now, k, key) <==> PutsAt(site, target, lines, now, k + 1, key)
          ensures RemovesAt(site, target, rest, now, k, key) <==> RemovesAt(site, target, lines, now, k + 1, key)
        {
          ReachedNext(site, target, lines, now, k);
        }
        if !Leaves(site, target, rest, now, key) {
          var k: nat :| Reached(site, target, rest, now, k)
                        && (PutsAt(site, target, rest, now, k, key) || RemovesAt(site, target, rest, now, k, key));
          assert Reached(site, target, lines, now, k + 1);
        }
        if Leaves(site, target, lines, now, key) {
          forall k: nat | Reached(site, target, lines, now, k)
            ensures !PutsAt(site, target, lines, now, k, key) && !RemovesAt(site, target, lines, now, k, key)
          {
            if k > 0 {
              assert Reached(site, target, rest, now, k - 1);
            }
          }
        }
      }
    }
  }

  lemma ReachedNext(site: Site, target: Target, lines: seq<Line>, now: int, k: nat)
    requires lines != [] && !EffectOf(site, target, lines[0], now).Raises?
    ensures Reached(site, target, lines[1..], now, k) <==> Reached(site, target, lines, now, k + 1)
  {
    if Reached(site, target, lines, now, k + 1) {
      forall i | 0 <= i < k ensures !EffectOf(site, target, lines[1..][i], now).Raises? {
        assert lines[1..][i] == lines[i + 1];
      }
    }
    if Reached(site, target, lines[1..], now, k) {
      forall i | 0 <= i < k + 1 ensures !EffectOf(site, target, lines[i], now).Raises? {
        assert i > 0 ==> lines[i] == lines[1..][i - 1];
      }
    }
  }

  /** The keys that lines put. */
  function KeysPut(site: Site, target: Target, lines: seq<Line>, now: int): set<Key> {
    if lines == [] then {}
    else
      var effect := EffectOf(site, target, lines[0], now);
      (if effect.Puts? then {effect.cookie.Key()} else {}) + KeysPut(site, target, lines[1..], now)
  }

  lemma {:induction false} HeadKeyIsNew(cs: seq<Cookie>)
    requires Distinct(Keys(cs)) && cs != []
    ensures forall x :: x in cs[1..] ==> x.Key() != cs[0].Key()
  {
    KeysAt(cs);
    forall x | x in cs[1..] ensures x.Key() != cs[0].Key() {
      var i :| 0 <= i < |cs[1..]| && cs[1..][i] == x;
      assert cs[i + 1] == x && Keys(cs)[i + 1] != Keys(cs)[0];
    }
  }

  lemma {:induction false} PutMembers(cs: seq<Cookie>, c: Cookie)
    requires Distinct(Keys(cs))
    ensures forall x :: x in Put(cs, c) <==> x == c || (x in cs && x.Key() != c.Key())
  {
    if cs != [] {
      assert cs == [cs[0]] + cs[1..] && Keys(cs) == [cs[0].Key()] + Keys(cs[1..]) && Keys(cs[1..]) == Keys(cs)[1..];
      if cs[0].Key() == c.Key() {
        HeadKeyIsNew(cs);
      } else {
        PutMembers(cs[1..], c);
      }
    }
  }

  /** What later lines leave alone stays as it was. */
  lemma {:induction false} LeftAlone(j: Jar, site: Site, target: Target, lines: seq<Line>, now: int, c: Cookie)
    requires Valid(j) && c in j.cookies && c.Key() in j.used && Leaves(site, target, lines, now, c.Key())
    ensures var after := StoreLines(j, site, target, lines, now).0;
            c in after.cookies && c.Key() in after.used && after.used[c.Key()] == j.used[c.Key()]
    decreases |lines|
  {
    if lines != [] {
      match EffectOf(site, target, lines[0], now) {
        case Removes(key) =>
          DropKeepsValid(j, {key});
          WithoutMembers(j.cookies, {key});
        case Puts(x) =>
          PutKeepsValid(j, x);
          PutMembers(j.cookies, x);
        case _ =>
      }
      if StoreLine(j, site, target, lines[0], now).1 {
        LeftAlone(StoreLine(j, site, target, lines[0], now).0, site, target, lines[1..], now, c);
      }
    }
  }

  /** The keys `a` used after `since` are those of `b`, used in the same order. */
  ghost predicate SameUse(a: map<Key, nat>, b: map<Key, nat>, since: nat) {
    && (forall k :: k in b ==> b[k] > 0 && k in a && a[k] == b[k] + since)
    && (forall k :: k in a && a[k] > since ==> k in b)
  }

  ghost predicate AliveSince(cs: seq<Cookie>, used: map<Key, nat>, since: nat, now: int) {
    forall c :: c in cs && UsedAt(used, c.Key()) > since ==> !c.IsExpired(now)
  }

  ghost predicate SameSince(a: Jar, b: Jar, since: nat, now: int) {
    a.tick == b.tick + since && SameUse(a.used, b.used, since) && AliveSince(a.cookies, a.used, since, now)
  }

  lemma PutAliveSince(a: Jar, c: Cookie, since: nat, now: int)
    requires Valid(a) && AliveSince(a.cookies, a.used, since, now) && !c.IsExpired(now)
    ensures AliveSince(Put(a.cookies, c), a.used[c.Key() := a.tick + 1], since, now)
  {
    PutMembers(a.cookies, c);
  }

  lemma PutSameSince(a: Jar, b: Jar, since: nat, c: Cookie, now: int)
    requires Valid(a) && SameSince(a, b, since, now) && !c.IsExpired(now)
    ensures SameSince(Touch(a.(cookies := Put(a.cookies, c)), c.Key()),
                      Touch(b.(cookies := Put(b.cookies, c)), c.Key()), since, now)
  {
    PutAliveSince(a, c, since, now);
    assert SameUse(a.used[c.Key() := a.tick + 1], b.used[c.Key() := b.tick + 1], since);
  }

  lemma DropSameSince(a: Jar, b: Jar, since: nat, gone: set<Key>, now: int)
    requires SameSince(a, b, since, now)
    ensures SameSince(Drop(a, gone), Drop(b, gone), since, now)
  {
    WithoutMembers(a.cookies, gone);
  }

  lemma LineSameSince(a: Jar, b: Jar, since: nat, site: Site, target: Target, line: Line, now: int)
    requires Valid(a) && SameSince(a, b, since, now)
    ensures SameSince(StoreLine(a, site, target, line, now).0, StoreLine(b, site, target, line, now).0, since, now)
  {
    match EffectOf(site, target, line, now)
    case Removes(key) => DropSameSince(a, b, since, {key}, now);
    case Puts(c) => PutSameSince(a, b, since, c, now);
    case _ =>
  }

  lemma {:induction false} LinesSameSince(a: Jar, b: Jar, since: nat, site: Site, target: Target, lines: seq<Line>,
                                          now: int)
    requires Valid(a) && SameSince(a, b, since, now)
    ensures SameSince(StoreLines(a, site, target, lines, now).0, StoreLines(b, site, target, lines, now).0, since, now)
    decreases |lines|
  {
    if lines != [] {
      var a', b' := StoreLine(a, site, target, lines[0], now), StoreLine(b, site, target, lines[0], now);
      LineSameSince(a, b, since, site, target, lines[0], now);
      if a'.1 {
        OneLine(a, site, target, lines[0], now);
        StoreLinesKeepsValid(a, site, target, [lines[0]], now);
        LinesSameSince(a'.0, b'.0, since, site, target, lines[1..], now);
      }
    }
  }

  lemma SameSiblingsSince(a: Jar, b: Jar, since: nat, now: int, key: Key)
    requires Valid(a) && SameSince(a, b, since, now) && key in b.used
    ensures NewerSiblings(DropExpired(a, now).used, key) == NewerSiblings(b.used, key)
    ensures key in DropExpired(a, now).used && DropExpired(a, now).used[key] == a.used[key]
  {
    forall k | k in b.used ensures k in DropExpired(a, now).used && DropExpired(a, now).used[k] == a.used[k] {
      assert k in a.used && a.used[k] > since;
    }
  }

  /** What comes after a key decides alone whether eviction keeps it. */
  lemma KeepsSince(a: Jar, b: Jar, since: nat, now: int, key: Key)
    requires Valid(a) && SameSince(a, b, since, now) && key in b.used
    ensures Keeps(DropExpired(a, now).used, key) <==> Keeps(b.used, key)
  {
    var used := DropExpired(a, now).used;
    SameSiblingsSince(a, b, since, now, key);
    forall k ensures k in NewerKept(used, key) <==> k in NewerKept(b.used, key) {
      if k in b.used {
        SameSiblingsSince(a, b, since, now, k);
      }
    }
    assert NewerKept(used, key) == NewerKept(b.used, key);
  }

  /** The i-th line is reached and puts a cookie for the address it came from: without an absolute path, and
      `Secure` only from a secure address. */
  ghost predicate PutsForItself(site: Site, target: Target, lines: seq<Line>, now: int, i: nat) {
    && i < |lines| && lines[i].Line? && EffectOf(site, target, lines[i], now).Puts?
    && (forall k :: 0 <= k < i ==> !EffectOf(site, target, lines[k], now).Raises?)
    && !(lines[i].attributes.path != "" && lines[i].attributes.path[0] == '/')
    && (lines[i].attributes.secure ==> target.IsSecure())
  }

  /** The jar just before the i-th line, and the same response from there. */
  lemma FromLine(j: Jar, site: Site, target: Target, lines: seq<Line>, now: int, i: nat) returns (before: Jar)
    requires Valid(j) && PutsForItself(site, target, lines, now, i)
    ensures Valid(before)
    ensures StoreLines(j, site, target, lines, now) == StoreLines(before, site, target, lines[i..], now)
  {
    before := StoreLines(j, site, target, lines[..i], now).0;
    assert lines == lines[..i] + lines[i..];
    StoredUpTo(j, site, target, lines[..i], now);
    StoreLinesKeepsValid(j, site, target, lines[..i], now);
    StoreLinesConcat(j, site, target, lines[..i], lines[i..], now);
  }

  lemma PutThenLeftAlone(before: Jar, site: Site, target: Target, lines: seq<Line>, now: int)
    requires Valid(before) && lines != [] && EffectOf(site, target, lines[0], now).Puts?
    requires Leaves(site, target, lines[1..], now, EffectOf(site, target, lines[0], now).cookie.Key())
    ensures var c := EffectOf(site, target, lines[0], now).cookie;
            var stored := StoreLines(before, site, target, lines, now).0;
            && Valid(stored) && c in stored.cookies
            && c.Key() in stored.used && stored.used[c.Key()] == before.tick + 1
  {
    var c := EffectOf(site, target, lines[0], now).cookie;
    PutKeepsValid(before, c);
    PutMembers(before.cookies, c);
    StoreLinesKeepsValid(before, site, target, lines, now);
    LeftAlone(StoreLine(before, site, target, lines[0], now).0, site, target, lines[1..], now, c);
  }

  /** The first of these lines puts a cookie that the rest leaves alone; the rest decides whether it is kept. */
  lemma KeptFromHere(before: Jar, site: Site, target: Target, lines: seq<Line>, now: int)
    requires Valid(before) && lines != [] && EffectOf(site, target, lines[0], now).Puts?
    requires Leaves(site, target, lines[1..], now, EffectOf(site, target, lines[0], now).cookie.Key())
    ensures var c := EffectOf(site, target, lines[0], now).cookie;
            var stored := StoreLines(before, site, target, lines, now).0;
            && Valid(stored)
            && (c in Evict(stored, now).cookies <==> Keeps(StoreLines(EMPTY, site, target, lines, now).0.used, c.Key()))
  {
    var c := EffectOf(site, target, lines[0], now).cookie;
    var stored := StoreLines(before, site, target, lines, now).0;
    PutThenLeftAlone(before, site, target, lines, now);
    PutThenLeftAlone(EMPTY, site, target, lines, now);
    LinesSameSince(before, EMPTY, before.tick, site, target, lines, now);
    KeepsSince(stored, StoreLines(EMPTY, site, target, lines, now).0, before.tick, now, c.Key());
    EvictKeepsExactly(stored, now, c);
  }

  /** Read your writes, exactly: a cookie that a line puts and no later line touches is sent back to its address
      unless the call evicts and too many keys were put after it. What the jar held makes no difference. */
  lemma StoredCookieIsSentIff(j: Jar, site: Site, target: Target, lines: seq<Line>, now: int, i: nat)
    requires Valid(j) && target.WellFormed() && PutsForItself(site, target, lines, now, i)
    requires Leaves(site, target, lines[i + 1..], now, EffectOf(site, target, lines[i], now).cookie.Key())
    ensures var c := EffectOf(site, target, lines[i], now).cookie;
            var after := Store(j, site, target, lines, now);
            c in Selected(after.0, site, target, now) <==>
              (after.1 ==> Keeps(StoreLines(EMPTY, site, target, lines[i..], now).0.used, c.Key()))
  {
    var rest, c := lines[i..], EffectOf(site, target, lines[i], now).cookie;
    var before := FromLine(j, site, target, lines, now, i);
    var stored := StoreLines(before, site, target, rest, now).0;
    assert rest[0] == lines[i] && rest[1..] == lines[i + 1..];
    PutThenLeftAlone(before, site, target, rest, now);
    KeptFromHere(before, site, target, rest, now);
    PutCookieComesBack(site, target, lines[i], now);
    EvictBounds(stored, now);
    SelectsExactly(Store(j, site, target, lines, now).0, site, target, now);
  }

  lemma {:induction false} OnlyPutKeys(j: Jar, site: Site, target: Target, lines: seq<Line>, now: int)
    ensures StoreLines(j, site, target, lines, now).0.used.Keys <= j.used.Keys + KeysPut(site, target, lines, now)
    decreases |lines|
  {
    if lines != [] && StoreLine(j, site, target, lines[0], now).1 {
      OnlyPutKeys(StoreLine(j, site, target, lines[0], now).0, site, target, lines[1..], now);
    }
  }

  lemma FewAfterIt(used: map<Key, nat>, key: Key, later: set<Key>)
    requires used.Keys <= later + {key}
    requires |set k | k in later && k.1 == key.1| < MAX_PER_DOMAIN && |later| < MAX_COOKIES
    ensures Keeps(used, key)
  {
    var siblings := set k | k in later && k.1 == key.1;
    assert NewerSiblings(used, key) <= siblings;
    CardinalityMonotone(NewerSiblings(used, key), siblings);
    assert NewerKept(used, key) <= later;
    CardinalityMonotone(NewerKept(used, key), later);
  }

  /** Read your writes, in numbers: it is sent back when the call raises, and when the lines after it put fewer
      than 50 keys of its domain and fewer than 3000 in all. */
  lemma StoredCookieIsSent(j: Jar, site: Site, target: Target, lines: seq<Line>, now: int, i: nat)
    requires Valid(j) && target.WellFormed() && PutsForItself(site, target, lines, now, i)
    requires Leaves(site, target, lines[i + 1..], now, EffectOf(site, target, lines[i], now).cookie.Key())
    requires var later := KeysPut(site, target, lines[i + 1..], now);
             var domain := EffectOf(site, target, lines[i], now).cookie.domain;
             (forall k :: 0 <= k < |lines| ==> !EffectOf(site, target, lines[k], now).Raises?) ==>
               |set k | k in later && k.1 == domain| < MAX_PER_DOMAIN && |later| < MAX_COOKIES
    ensures EffectOf(site, target, lines[i], now).cookie
         in Selected(Store(j, site, target, lines, now).0, site, target, now)
  {
    var rest, c := lines[i..], EffectOf(site, target, lines[i], now).cookie;
    var later := KeysPut(site, target, lines[i + 1..], now);
    var used := StoreLines(EMPTY, site, target, rest, now).0.used;
    StoredCookieIsSentIff(j, site, target, lines, now, i);
    StoredUpTo(j, site, target, lines, now);
    assert rest[0] == lines[i] && rest[1..] == lines[i + 1..];
    OnlyPutKeys(EMPTY, site, target, rest, now);
    if Store(j, site, target, lines, now).1 {
      FewAfterIt(used, c.Key(), later);
    }
  }

  /** The keys of `key`'s domain, itself apart, that these lines put and leave in the jar. */
  ghost function LastingSiblings(site: Site, target: Target, lines: seq<Line>, now: int, key: Key): set<Key> {
    set k | k in KeysPut(site, target, lines, now) - {key} && k.1 == key.1 && Lasts(site, target, lines, now, k)
  }

  lemma LastingAreNewer(site: Site, target: Target, lines: seq<Line>, now: int)
    requires StoreLines(EMPTY, site, target, lines, now).1
    requires lines != [] && EffectOf(site, target, lines[0], now).Puts?
    requires Leaves(site, target, lines[1..], now, EffectOf(site, target, lines[0], now).cookie.Key())
    ensures var key := EffectOf(site, target, lines[0], now).cookie.Key();
            LastingSiblings(site, target, lines, now, key)
            <= NewerSiblings(StoreLines(EMPTY, site, target, lines, now).0.used, key)
  {
    var key, alone := EffectOf(site, target, lines[0], now).cookie.Key(), StoreLines(EMPTY, site, target, lines, now).0;
    PutThenLeftAlone(EMPTY, site, target, lines, now);
    LinesSameSince(EMPTY, EMPTY, 0, site, target, lines, now);
    forall k | k in LastingSiblings(site, target, lines, now, key) ensures k in NewerSiblings(alone.used, key) {
      KeysLeft(site, target, lines, now, k);
      assert k in alone.used && alone.used[k] > 0 && alone.used[k] != alone.used[key];
    }
  }

  /** Fifty keys of the same domain that later lines put and leave in the jar push it out, whatever the jar held. */
  lemma PushedOutByFifty(j: Jar, site: Site, target: Target, lines: seq<Line>, now: int, i: nat)
    requires Valid(j) && target.WellFormed() && PutsForItself(site, target, lines, now, i)
    requires Leaves(site, target, lines[i + 1..], now, EffectOf(site, target, lines[i], now).cookie.Key())
    requires forall k :: 0 <= k < |lines| ==> !EffectOf(site, target, lines[k], now).Raises?
    requires var key := EffectOf(site, target, lines[i], now).cookie.Key();
             |LastingSiblings(site, target, lines[i..], now, key)| >= MAX_PER_DOMAIN
    ensures EffectOf(site, target, lines[i], now).cookie
        !in Selected(Store(j, site, target, lines, now).0, site, target, now)
  {
    var rest, key := lines[i..], EffectOf(site, target, lines[i], now).cookie.Key();
    StoredCookieIsSentIff(j, site, target, lines, now, i);
    StoredUpTo(j, site, target, lines, now);
    StoredUpTo(EMPTY, site, target, rest, now);
    assert rest[0] == lines[i] && rest[1..] == lines[i + 1..];
    LastingAreNewer(site, target, rest, now);
    CardinalityMonotone(LastingSiblings(site, target, rest, now, key),
                        NewerSiblings(StoreLines(EMPTY, site, target, rest, now).0.used, key));
  }

  // ----- The object

  class CookieJar {
    var cookies: seq<Cookie>
    var used: map<Key, nat>
    var tick: nat

    ghost function Value(): Jar
      reads this
    {
      Jar(cookies, used, tick)
    }

    constructor ()
      ensures Value() == EMPTY
    {
      cookies, used, tick := [], map[], 0;
    }

    method TouchKey(key: Key)
      modifies this
      ensures Value() == Touch(old(Value()), key)
    {
      tick := tick + 1;
      used := used[key := tick];
    }

    /** Pops every listed key from both dictionaries. */
    method Pop(keys: seq<Key>)
      modifies this
      ensures Value() == Drop(old(Value()), Elements(keys))
    {
      var i := 0;
      DropNothing(Value(), Elements(keys[..0]));
      while i < |keys|
        invariant i <= |keys| && Value() == Drop(old(Value()), Elements(keys[..i]))
      {
        DropMore(old(Value()), Elements(keys[..i]), {keys[i]});
        assert Elements(keys[..i + 1]) == Elements(keys[..i]) + {keys[i]};
        cookies := Without(cookies, {keys[i]});
        used := used - {keys[i]};
        i := i + 1;
      }
      assert keys[..i] == keys;
    }

    method DropExpiredCookies(now: int)
      modifies this
      ensures Value() == DropExpired(old(Value()), now)
    {
      var expired: seq<Key> := [];
      var i := 0;
      while i < |cookies|
        invariant i <= |cookies| && Elements(expired) == Expired(cookies[..i], now)
      {
        var c := cookies[i];
        assert cookies[..i + 1] == cookies[..i] + [c];
        assert Expired(cookies[..i + 1], now)
            == Expired(cookies[..i], now) + (if c.IsExpired(now) then {c.Key()} else {});
        if c.IsExpired(now) {
          assert Elements(expired + [c.Key()]) == Elements(expired) + {c.Key()};
          expired := expired + [c.Key()];
        }
        i := i + 1;
      }
      assert cookies[..i] == cookies;
      Pop(expired);
    }

    method DropLeastUsed(keys: seq<Key>, excess: int)
      requires excess <= |keys|
      modifies this
      ensures Value() == Drop(old(Value()), Elements(Victims(keys, old(used), excess)))
    {
      if excess <= 0 {
        DropNothing(Value(), Elements(Victims(keys, used, excess)));
        return;
      }
      Pop(Victims(keys, used, excess));
    }

    /** Each overfull domain loses its least recently used. */
    method DropOverfull()
      requires Valid(Value())
      modifies this
      ensures Value() == Drop(old(Value()), OverfullVictims(old(Value())))
    {
      ghost var live := Value();
      var domains, byDomain := Group(cookies);
      var i := 0;
      NoDomain(live, domains);
      while i < |domains|
        invariant i <= |domains| && Value() == Drop(live, VictimsOf(live, domains[..i]))
      {
        var d := domains[i];
        assert d in domains && byDomain[d] == KeysIn(live.cookies, d);
        NextDomain(live, domains, i);
        DropLeastUsed(byDomain[d], |byDomain[d]| - MAX_PER_DOMAIN);
        i := i + 1;
      }
      AllVictims(live, domains, i);
    }

    /** Expired cookies go first, then the least recently used of each overfull domain, then of the jar. */
    method EvictCookies(now: int)
      requires Valid(Value())
      modifies this
      ensures Value() == Evict(old(Value()), now)
    {
      DropKeepsValid(Value(), Expired(cookies, now));
      DropExpiredCookies(now);
      DropOverfull();
      KeysAt(cookies);
      DropLeastUsed(Keys(cookies), |cookies| - MAX_COOKIES);
    }

    method StoreCookies(site: Site, target: Target, lines: seq<Line>, now: int) returns (ok: bool)
      requires Valid(Value())
      modifies this
      ensures (Value(), ok) == Store(old(Value()), site, target, lines, now)
    {
      var i := 0;
      while i < |lines|
        invariant i <= |lines| && Valid(Value())
        invariant StoreLines(old(Value()), site, target, lines, now)
               == StoreLines(Value(), site, target, lines[i..], now)
      {
        assert lines[i..][0] == lines[i] && lines[i..][1..] == lines[i + 1..];
        match EffectOf(site, target, lines[i], now) {
          case Ignored =>
          case Raises =>
            return false;
          case Removes(key) =>
            DropKeepsValid(Value(), {key});
            assert Elements([key]) == {key};
            Pop([key]);
          case Puts(c) =>
            PutKeepsValid(Value(), c);
            cookies := Put(cookies, c);
            TouchKey(c.Key());
        }
        i := i + 1;
      }
      EvictCookies(now);
      return true;
    }

    method Select(site: Site, target: Target, now: int) returns (r: seq<Cookie>)
      requires Valid(Value())
      modifies this
      ensures r == Selected(old(Value()), site, target, now)
      ensures CookieHeader(old(Value()), site, target, now, r)
      ensures Value() == AfterSelect(old(Value()), site, target, now)
    {
      SelectsExactly(Value(), site, target, now);
      DropExpiredCookies(now);
      var chosen := Chosen(cookies, site, target);
      ghost var live := Value();
      var i := 0;
      while i < |chosen|
        invariant i <= |chosen| && TouchAll(live, chosen) == TouchAll(Value(), chosen[i..])
      {
        assert chosen[i..][0] == chosen[i] && chosen[i..][1..] == chosen[i + 1..];
        TouchKey(chosen[i].Key());
        i := i + 1;
      }
      r := Sort(chosen, LongerPathFirst);
    }

    method LoadState(state: seq<Cookie>, now: int)
      requires Valid(Value())
      modifies this
      ensures Value() == Load(old(Value()), state, now)
    {
      var i := 0;
      while i < |state|
        invariant i <= |state| && Valid(Value())
        invariant Merge(old(Value()), state, now) == Merge(Value(), state[i..], now)
      {
        assert state[i..][0] == state[i] && state[i..][1..] == state[i + 1..];
        if !state[i].IsExpired(now) {
          PutKeepsValid(Value(), state[i]);
          cookies := Put(cookies, state[i]);
          TouchKey(state[i].Key());
        }
        i := i + 1;
      }
      EvictCookies(now);
    }

    method Snapshot(now: int) returns (state: seq<Cookie>)
      requires Valid(Value())
      modifies this
      ensures Value() == DropExpired(old(Value()), now) && state == cookies
      ensures forall c :: c in state <==> c in old(cookies) && !c.IsExpired(now)
    {
      forall c ensures c in DropExpired(Value(), now).cookies <==> c in cookies && !c.IsExpired(now) {
        LiveExactly(Value(), now, c);
      }
      DropExpiredCookies(now);
      state := cookies;
    }
  }

  // ----- One domain after the other

  /** `byDomain` lists the keys of each domain of `cs`. */
  ghost predicate Grouped(cs: seq<Cookie>, domains: seq<string>, byDomain: map<string, seq<Key>>) {
    && Distinct(domains) && byDomain.Keys == Elements(domains)
    && (forall d :: d in byDomain ==> byDomain[d] == KeysIn(cs, d))
    && (forall d :: d !in byDomain ==> KeysIn(cs, d) == [])
  }

  lemma GroupedNext(cs: seq<Cookie>, c: Cookie, domains: seq<string>, byDomain: map<string, seq<Key>>)
    requires Grouped(cs, domains, byDomain)
    ensures Grouped(cs + [c], if c.domain in byDomain then domains else domains + [c.domain],
                    byDomain[c.domain := KeysIn(cs, c.domain) + [c.Key()]])
  {
    forall d ensures KeysIn(cs + [c], d) == if c.domain == d then KeysIn(cs, d) + [c.Key()] else KeysIn(cs, d) {
      KeysInConcat(cs, [c], d);
      assert KeysIn([c], d) == if c.domain == d then [c.Key()] else [];
    }
  }

  lemma GroupedHasDomain(cs: seq<Cookie>, domains: seq<string>, byDomain: map<string, seq<Key>>)
    requires Grouped(cs, domains, byDomain)
    ensures forall c :: c in cs ==> c.domain in byDomain
  {
    forall c | c in cs ensures c.domain in byDomain {
      MemberKey(cs, c);
      KeysInDomain(cs, c.domain);
    }
  }

  method Group(cs: seq<Cookie>) returns (domains: seq<string>, byDomain: map<string, seq<Key>>)
    ensures Distinct(domains) && byDomain.Keys == Elements(domains)
    ensures forall d :: d in byDomain ==> byDomain[d] == KeysIn(cs, d)
    ensures forall c :: c in cs ==> c.domain in byDomain
  {
    domains, byDomain := [], map[];
    var i := 0;
    while i < |cs|
      invariant i <= |cs| && Grouped(cs[..i], domains, byDomain)
    {
      var c := cs[i];
      GroupedNext(cs[..i], c, domains, byDomain);
      if c.domain !in byDomain {
        domains := domains + [c.domain];
        byDomain := byDomain[c.domain := []];
      }
      byDomain := byDomain[c.domain := byDomain[c.domain] + [c.Key()]];
      assert cs[..i + 1] == cs[..i] + [c];
      i := i + 1;
    }
    assert cs[..i] == cs;
    GroupedHasDomain(cs, domains, byDomain);
  }

  ghost function VictimsOf(j: Jar, domains: seq<string>): set<Key> {
    set d, k | d in domains && k in DomainVictims(j, d) :: k
  }

  lemma VictimsOfNext(j: Jar, domains: seq<string>, i: nat)
    requires i < |domains|
    ensures VictimsOf(j, domains[..i + 1]) == VictimsOf(j, domains[..i]) + Elements(DomainVictims(j, domains[i]))
  {
    assert domains[..i + 1] == domains[..i] + [domains[i]];
  }

  /** What the loop drops for one domain more. */
  lemma NextDomain(j: Jar, domains: seq<string>, i: nat)
    requires Valid(j) && Distinct(domains) && i < |domains|
    ensures var keys := KeysIn(j.cookies, domains[i]); var now := Drop(j, VictimsOf(j, domains[..i]));
            Drop(now, Elements(Victims(keys, now.used, |keys| - MAX_PER_DOMAIN)))
            == Drop(j, VictimsOf(j, domains[..i + 1]))
  {
    LaterDomainKeepsVictims(j, domains, i);
    DropMore(j, VictimsOf(j, domains[..i]), Elements(DomainVictims(j, domains[i])));
    VictimsOfNext(j, domains, i);
  }

  lemma NoDomain(j: Jar, domains: seq<string>)
    ensures Drop(j, VictimsOf(j, domains[..0])) == j
  {
    DropNothing(j, VictimsOf(j, domains[..0]));
  }

  lemma AllVictims(j: Jar, domains: seq<string>, i: nat)
    requires Valid(j) && i == |domains| && forall c :: c in j.cookies ==> c.domain in domains
    ensures VictimsOf(j, domains[..i]) == OverfullVictims(j)
  {
    assert domains[..i] == domains;
    forall k ensures k in VictimsOf(j, domains) <==> k in OverfullVictims(j) {
      OverfullVictimsByDomain(j, k);
      if k in VictimsOf(j, domains) {
        var d :| d in domains && k in DomainVictims(j, d);
        DomainVictimsAreOldest(j, d);
        KeysInDomain(j.cookies, d);
      }
      if k in OverfullVictims(j) {
        var c :| c in j.cookies && c.Key() in DomainVictims(j, c.domain) && c.Key() == k;
      }
    }
  }

  /** Evicting for other domains does not change whom a domain loses. */
  lemma LaterDomainKeepsVictims(j: Jar, domains: seq<string>, i: nat)
    requires Valid(j) && Distinct(domains) && i < |domains|
    ensures var keys := KeysIn(j.cookies, domains[i]);
            Victims(keys, j.used - VictimsOf(j, domains[..i]), |keys| - MAX_PER_DOMAIN) == DomainVictims(j, domains[i])
  {
    var keys := KeysIn(j.cookies, domains[i]);
    var used' := j.used - VictimsOf(j, domains[..i]);
    forall k | k in keys ensures UsedAt(used', k) == UsedAt(j.used, k) {
      KeysInDomain(j.cookies, domains[i]);
      if d :| d in domains[..i] && k in DomainVictims(j, d) {
        DomainVictimsAreOldest(j, d);
        KeysInDomain(j.cookies, d);
        assert false;
      }
    }
    SortAgrees(keys, Older(used'), Older(j.used));
  }
}
