/** Sequences, code-point string order and the stable sort of `sorted(..., key=...)`. */
module Ordering {

  datatype Option<+T> = None | Some(value: T)

  /** The elements of a sequence, forgetting order and repetition. */
  function Elements<T>(s: seq<T>): set<T> {
    set x | x in s
  }

  ghost predicate Distinct<T>(s: seq<T>) {
    forall i, j :: 0 <= i < j < |s| ==> s[i] != s[j]
  }

  lemma {:induction false} DistinctIffCardinality<T>(s: seq<T>)
    ensures |Elements(s)| <= |s|
    ensures |Elements(s)| == |s| <==> Distinct(s)
  {
    if s == [] {
      assert Elements(s) == {};
    } else {
      var n := |s| - 1;
      var front := s[..n];
      DistinctIffCardinality(front);
      assert s == front + [s[n]];
      if s[n] in front {
        assert Elements(s) == Elements(front);
        var i :| 0 <= i < n && front[i] == s[n];
        assert s[i] == s[n];
      } else {
        assert Elements(s) == Elements(front) + {s[n]};
        assert Distinct(s) <==> Distinct(front);
      }
    }
  }

  /** A distinct list inside a set that is as long as the set lists all of it. */
  lemma DistinctFillsSet<T>(s: seq<T>, all: set<T>)
    requires Distinct(s) && Elements(s) <= all && |s| >= |all|
    ensures Elements(s) == all
  {
    DistinctIffCardinality(s);
    if Elements(s) < all {
      CardinalityMonotone(Elements(s), all);
    }
  }

  lemma CardinalityMonotone<T>(small: set<T>, large: set<T>)
    requires small <= large
    ensures |small| <= |large|
    ensures small < large ==> |small| < |large|
  {
    assert large == small + (large - small);
  }

  // ----- Code-point order on strings, Python's `<=` on `str`

  predicate StringLe(a: string, b: string) {
    if a == [] then true
    else if b == [] then false
    else if a[0] != b[0] then a[0] < b[0]
    else StringLe(a[1..], b[1..])
  }

  lemma {:induction false} StringLeTotal(a: string, b: string)
    ensures StringLe(a, b) || StringLe(b, a)
    decreases |a|
  {
    if a != [] && b != [] && a[0] == b[0] {
      StringLeTotal(a[1..], b[1..]);
    }
  }

  lemma {:induction false} StringLeAntisymmetric(a: string, b: string)
    requires StringLe(a, b) && StringLe(b, a)
    ensures a == b
    decreases |a|
  {
    if a != [] && b != [] {
      StringLeAntisymmetric(a[1..], b[1..]);
      assert a == [a[0]] + a[1..] && b == [b[0]] + b[1..];
    }
  }

  lemma {:induction false} StringLeTransitive(a: string, b: string, c: string)
    requires StringLe(a, b) && StringLe(b, c)
    ensures StringLe(a, c)
    decreases |a|
  {
    if a != [] && a[0] == b[0] && b[0] == c[0] {
      StringLeTransitive(a[1..], b[1..], c[1..]);
    }
  }

  /** `a` and `b` agree before position `i`, where `a` has the smaller character. */
  predicate SmallerAt(a: string, b: string, i: nat) {
    i < |a| && i < |b| && a[..i] == b[..i] && a[i] < b[i]
  }

  /** The order is told at the first character that differs; a beginning comes before what it begins. */
  lemma {:induction false} StringLeFirstDifference(a: string, b: string)
    ensures StringLe(a, b) <==> a <= b || exists i: nat :: SmallerAt(a, b, i)
    decreases |a|
  {
    if a != [] && b != [] {
      if a[0] == b[0] {
        StringLeFirstDifference(a[1..], b[1..]);
        if i: nat :| SmallerAt(a[1..], b[1..], i) {
          assert a[..i + 1] == [a[0]] + a[1..][..i] && b[..i + 1] == [b[0]] + b[1..][..i];
          assert SmallerAt(a, b, i + 1);
        }
        if i: nat :| SmallerAt(a, b, i) {
          assert i > 0 && a[1..][..i - 1] == a[..i][1..] && b[1..][..i - 1] == b[..i][1..];
          assert SmallerAt(a[1..], b[1..], i - 1);
        }
      } else {
        assert SmallerAt(a, b, 0) <==> a[0] < b[0];
        if i: nat :| SmallerAt(a, b, i) {
          assert i > 0 ==> a[..i][0] == b[..i][0];
        }
      }
    }
  }

  // ----- Stable sort

  /** `le` is a total preorder on the elements of `s`. */
  ghost predicate OrdersAll<T>(s: seq<T>, le: (T, T) -> bool) {
    && (forall x, y :: x in s && y in s ==> le(x, y) || le(y, x))
    && (forall x, y, z :: x in s && y in s && z in s && le(x, y) && le(y, z) ==> le(x, z))
  }

  ghost predicate SortedBy<T>(s: seq<T>, le: (T, T) -> bool) {
    forall i, j :: 0 <= i < j < |s| ==> le(s[i], s[j])
  }

  function Insert<T>(x: T, s: seq<T>, le: (T, T) -> bool): seq<T> {
    if s == [] || le(x, s[0]) then [x] + s else [s[0]] + Insert(x, s[1..], le)
  }

  /** The list `sorted` builds: `le` compares keys, equal keys keep their order. */
  function Sort<T>(s: seq<T>, le: (T, T) -> bool): seq<T> {
    if s == [] then [] else Insert(s[0], Sort(s[1..], le), le)
  }

  lemma {:induction false} InsertPermutes<T>(x: T, s: seq<T>, le: (T, T) -> bool)
    ensures multiset(Insert(x, s, le)) == multiset(s) + multiset{x}
    ensures |Insert(x, s, le)| == |s| + 1
  {
    if s != [] && !le(x, s[0]) {
      InsertPermutes(x, s[1..], le);
      assert s == [s[0]] + s[1..];
    }
  }

  lemma {:induction false} SortPermutes<T>(s: seq<T>, le: (T, T) -> bool)
    ensures multiset(Sort(s, le)) == multiset(s)
    ensures |Sort(s, le)| == |s|
    ensures forall x :: x in Sort(s, le) <==> x in s
  {
    if s != [] {
      SortPermutes(s[1..], le);
      InsertPermutes(s[0], Sort(s[1..], le), le);
      assert s == [s[0]] + s[1..];
    }
    SameMultisetSameElements(Sort(s, le), s);
  }

  lemma SameMultisetSameElements<T>(a: seq<T>, b: seq<T>)
    requires multiset(a) == multiset(b)
    ensures forall x :: x in a <==> x in b
  {
    forall x ensures x in a <==> x in b {
      assert x in a <==> x in multiset(a);
      assert x in b <==> x in multiset(b);
    }
  }

  /** `r` is `s` with `x` put in at position `k`. */
  ghost predicate PutIn<T>(x: T, s: seq<T>, k: nat, r: seq<T>) {
    && k <= |s| && |r| == |s| + 1 && r[k] == x
    && (forall i :: 0 <= i < k ==> r[i] == s[i])
    && (forall i :: k < i < |r| ==> r[i] == s[i - 1])
  }

  /** `Insert` puts its argument before the first element it is at or below. */
  lemma {:induction false} InsertedAt<T>(x: T, s: seq<T>, le: (T, T) -> bool) returns (k: nat)
    ensures PutIn(x, s, k, Insert(x, s, le))
    ensures (forall i :: 0 <= i < k ==> !le(x, s[i])) && (k < |s| ==> le(x, s[k]))
  {
    if s == [] || le(x, s[0]) {
      k := 0;
    } else {
      k := InsertedAt(x, s[1..], le);
      k := k + 1;
    }
  }

  lemma InsertSorted<T>(x: T, s: seq<T>, le: (T, T) -> bool)
    requires OrdersAll([x] + s, le) && SortedBy(s, le)
    ensures SortedBy(Insert(x, s, le), le)
  {
    var k := InsertedAt(x, s, le);
    assert x in [x] + s && forall i :: 0 <= i < |s| ==> s[i] in [x] + s;
    if k < |s| {
      forall i | k <= i < |s| ensures le(x, s[i]) {
        assert i == k || le(s[k], s[i]);
      }
    }
  }

  lemma {:induction false} SortSorts<T>(s: seq<T>, le: (T, T) -> bool)
    requires OrdersAll(s, le)
    ensures SortedBy(Sort(s, le), le)
  {
    if s != [] {
      assert forall y :: y in s[1..] ==> y in s;
      SortSorts(s[1..], le);
      SortPermutes(s[1..], le);
      var tail := Sort(s[1..], le);
      forall y | y in [s[0]] + tail ensures y in s {
        if y in tail {
          assert y in multiset(tail);
          assert y in multiset(s[1..]);
          assert y in s[1..];
        }
      }
      InsertSorted(s[0], Sort(s[1..], le), le);
    }
  }

  lemma DistinctFromMultiset<T>(a: seq<T>, b: seq<T>)
    requires multiset(a) == multiset(b) && Distinct(a)
    ensures Distinct(b)
  {
    SameMultisetSameElements(a, b);
    assert Elements(a) == Elements(b);
    assert |multiset(a)| == |a| && |multiset(b)| == |b|;
    DistinctIffCardinality(a);
    DistinctIffCardinality(b);
  }

  lemma {:induction false} DistinctCount<T>(s: seq<T>, x: T)
    requires Distinct(s)
    ensures multiset(s)[x] == if x in s then 1 else 0
  {
    if s != [] {
      DistinctCount(s[1..], x);
      assert s == [s[0]] + s[1..];
    }
  }

  lemma DistinctSameElements<T>(a: seq<T>, b: seq<T>)
    requires Distinct(a) && Distinct(b) && Elements(a) == Elements(b)
    ensures multiset(a) == multiset(b)
  {
    forall x ensures multiset(a)[x] == multiset(b)[x] {
      DistinctCount(a, x);
      DistinctCount(b, x);
      assert x in a <==> x in Elements(a);
      assert x in b <==> x in Elements(b);
    }
  }

  lemma LastOfPrefix<T>(s: seq<T>, j: nat)
    requires 0 < j <= |s|
    ensures s[..j] == s[..j - 1] + [s[j - 1]]
  {
  }

  /** Takes one occurrence of `x` out of a list. */
  lemma TakeOut<T>(s: seq<T>, x: T) returns (a: seq<T>, b: seq<T>)
    requires x in multiset(s)
    ensures s == a + [x] + b && multiset(a + b) == multiset(s) - multiset{x}
  {
    assert x in s;
    var i :| 0 <= i < |s| && s[i] == x;
    a, b := s[..i], s[i + 1..];
    assert s == a + [x] + b;
    assert multiset(s) == multiset(a) + multiset{x} + multiset(b);
  }

  /** The same for the head of a listing of the same elements. */
  lemma TakeHeadOut<T>(s: seq<T>, t: seq<T>) returns (a: seq<T>, b: seq<T>)
    requires s != [] && multiset(s) == multiset(t)
    ensures t == a + [s[0]] + b && multiset(a + b) == multiset(s[1..])
  {
    assert s == [s[0]] + s[1..];
    assert s[0] in multiset(s);
    a, b := TakeOut(t, s[0]);
  }

  /** Where a listed element first stands. */
  function IndexOf<T(==)>(s: seq<T>, x: T): (i: nat)
    requires x in s
    ensures i < |s| && s[i] == x && x !in s[..i]
  {
    if s[0] == x then 0 else
      assert x in s[1..];
      var i := 1 + IndexOf(s[1..], x);
      assert s[..i] == [s[0]] + s[1..][..i - 1];
      i
  }

  /** `r` lists elements of `s`, ties in the order `s` has them. */
  ghost predicate Stable<T>(s: seq<T>, r: seq<T>, le: (T, T) -> bool) {
    && (forall i :: 0 <= i < |r| ==> r[i] in s)
    && (forall i, j :: 0 <= i < j < |r| && le(r[j], r[i]) ==> IndexOf(s, r[i]) < IndexOf(s, r[j]))
  }

  /** Ties leave `Sort` in the order they entered it. */
  lemma {:induction false} SortIsStable<T>(s: seq<T>, le: (T, T) -> bool)
    requires Distinct(s)
    ensures Stable(s, Sort(s, le), le)
  {
    if s != [] {
      var rest, tail := s[1..], Sort(s[1..], le);
      SortIsStable(rest, le);
      SortPermutes(rest, le);
      var k := InsertedAt(s[0], tail, le);
      InsertKeepsStable(s, tail, k, Sort(s, le), le);
    }
  }

  lemma InsertKeepsStable<T>(s: seq<T>, tail: seq<T>, k: nat, r: seq<T>, le: (T, T) -> bool)
    requires s != [] && Distinct(s) && Stable(s[1..], tail, le)
    requires PutIn(s[0], tail, k, r) && forall i :: 0 <= i < k ==> !le(s[0], tail[i])
    ensures Stable(s, r, le)
  {
    forall i | 0 <= i < |r| ensures r[i] in s {
      if i != k { assert r[i] == tail[if i < k then i else i - 1]; }
    }
    forall i, j | 0 <= i < j < |r| && le(r[j], r[i]) ensures IndexOf(s, r[i]) < IndexOf(s, r[j]) {
      var a, b := if i < k then i else i - 1, if j < k then j else j - 1;
      if i == k {
        assert r[j] == tail[b];
        IndexOfTail(s, tail[b]);
      } else if j != k {
        assert r[i] == tail[a] && r[j] == tail[b];
        IndexOfTail(s, tail[a]);
        IndexOfTail(s, tail[b]);
      }
    }
  }

  lemma IndexOfTail<T>(s: seq<T>, x: T)
    requires s != [] && Distinct(s) && x in s[1..]
    ensures x in s && x != s[0] && IndexOf(s, x) == 1 + IndexOf(s[1..], x)
  {
    var i :| 0 <= i < |s[1..]| && s[1..][i] == x;
    assert s[i + 1] == x && s[0] != x;
  }

  lemma {:induction false} SortSorted<T>(s: seq<T>, le: (T, T) -> bool)
    requires SortedBy(s, le)
    ensures Sort(s, le) == s
  {
    if s != [] {
      SortSorted(s[1..], le);
      assert s == [s[0]] + s[1..];
    }
  }

  lemma {:induction false} InsertAgrees<T>(x: T, s: seq<T>, le: (T, T) -> bool, le': (T, T) -> bool)
    requires forall y :: y in s ==> le(x, y) == le'(x, y)
    ensures Insert(x, s, le) == Insert(x, s, le')
  {
    if s != [] {
      assert s[0] in s && forall y :: y in s[1..] ==> y in s;
      InsertAgrees(x, s[1..], le, le');
    }
  }

  /** Only the comparisons among the listed elements matter. */
  lemma {:induction false} SortAgrees<T>(s: seq<T>, le: (T, T) -> bool, le': (T, T) -> bool)
    requires forall x, y :: x in s && y in s ==> le(x, y) == le'(x, y)
    ensures Sort(s, le) == Sort(s, le')
  {
    if s != [] {
      var tail := Sort(s[1..], le);
      SortAgrees(s[1..], le, le');
      SortPermutes(s[1..], le);
      forall y | y in tail ensures le(s[0], y) == le'(s[0], y) {
        assert y in multiset(tail);
      }
      InsertAgrees(s[0], tail, le, le');
    }
  }

  // ----- Sublists

  /** `sub` lists elements of `s` in the order `s` has them. */
  ghost predicate KeepsOrder<T>(sub: seq<T>, s: seq<T>) {
    && (forall i :: 0 <= i < |sub| ==> sub[i] in s)
    && (forall i, j :: 0 <= i < j < |sub| ==> IndexOf(s, sub[i]) < IndexOf(s, sub[j]))
  }

  lemma SkipKeepsOrder<T>(sub: seq<T>, s: seq<T>)
    requires s != [] && Distinct(s) && KeepsOrder(sub, s[1..])
    ensures KeepsOrder(sub, s)
  {
    forall i | 0 <= i < |sub| ensures sub[i] in s && IndexOf(s, sub[i]) == 1 + IndexOf(s[1..], sub[i]) {
      IndexOfTail(s, sub[i]);
    }
  }

  lemma TakeKeepsOrder<T>(sub: seq<T>, s: seq<T>)
    requires s != [] && Distinct(s) && KeepsOrder(sub, s[1..])
    ensures KeepsOrder([s[0]] + sub, s)
  {
    SkipKeepsOrder(sub, s);
    forall i | 0 <= i < |sub| ensures IndexOf(s, s[0]) < IndexOf(s, sub[i]) {
      IndexOfTail(s, sub[i]);
    }
  }

  lemma KeepsOrderTransitive<T>(a: seq<T>, b: seq<T>, c: seq<T>)
    requires KeepsOrder(a, b) && KeepsOrder(b, c)
    ensures KeepsOrder(a, c)
  {
    forall i, j | 0 <= i < j < |a| ensures IndexOf(c, a[i]) < IndexOf(c, a[j]) {
      assert b[IndexOf(b, a[i])] == a[i] && b[IndexOf(b, a[j])] == a[j];
    }
  }
}
